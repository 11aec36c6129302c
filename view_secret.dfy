/**
 * The reveal page of the client (`client/src/pages/ViewSecret.jsx`): it
 * reads the key and the secret type from the URL fragment, probes the server
 * without consuming the secret, asks for the password when one is set,
 * checks it locally, and only then performs the consuming fetch.
 * The existence probe, the password check, the key import and the
 * fetch-and-decrypt step are oracles whose outcomes are parameters.
 */
module ViewSecret {
  import opened Wrappers
  import opened Strings
  import CryptoText

  // ---------------------------------------------------------------------
  // The URL fragment, read the way `URLSearchParams` reads a query string.
  // ---------------------------------------------------------------------

  /** The pieces of `s` between occurrences of `sep`. */
  function SplitOn(s: string, sep: char): (parts: seq<string>)
    ensures |parts| >= 1
    decreases |s|
  {
    var i := IndexOf(s, sep);
    if i == |s| then [s] else [s[..i]] + SplitOn(s[i + 1..], sep)
  }

  /** Form decoding: '+' stands for a space. */
  function FormDecode(s: string): string
  {
    CryptoText.ReplaceChar(s, '+', ' ')
  }

  /** A `name=value` piece; without '=' the value is empty. */
  function ParsePair(piece: string): (string, string)
  {
    var i := IndexOf(piece, '=');
    if i == |piece| then (FormDecode(piece), "")
    else (FormDecode(piece[..i]), FormDecode(piece[i + 1..]))
  }

  /** The name/value pairs of the pieces, skipping empty pieces. */
  function PairsOf(pieces: seq<string>): seq<(string, string)>
  {
    if pieces == [] then []
    else (if pieces[0] == "" then [] else [ParsePair(pieces[0])]) + PairsOf(pieces[1..])
  }

  /** `params.get(name)`: the value of the first pair with that name, or null. */
  function Lookup(pairs: seq<(string, string)>, name: string): Option<string>
  {
    if pairs == [] then None
    else if pairs[0].0 == name then Some(pairs[0].1)
    else Lookup(pairs[1..], name)
  }

  datatype Fragment = Fragment(key: Option<string>, secretType: string)

  /** The string `URLSearchParams` reads from its argument: one leading '?' is dropped. */
  function SearchString(init: string): string
  {
    if init != [] && init[0] == '?' then init[1..] else init
  }

  /**
   * `parseHash`: the `key` parameter and the `type` parameter of the
   * fragment after its '#'. The type defaults to "text", so it is never
   * empty, and a fragment with nothing after the '#' has no key.
   */
  function ParseHash(hash: string): (fragment: Fragment)
    ensures fragment.secretType != ""
    ensures |hash| <= 1 ==> fragment == Fragment(None, "text")
  {
    var query := SearchString(if hash == [] then [] else hash[1..]);
    var pieces := SplitOn(query, '&');
    assert query == [] ==> pieces == [[]] && PairsOf(pieces) == [] + PairsOf([]);
    var pairs := PairsOf(pieces);
    var secretType := Lookup(pairs, "type");
    Fragment(Lookup(pairs, "key"), if Truthy(secretType) then secretType.value else "text")
  }

  /** The fragment the create pages put in a share link. */
  function ShareFragment(key: string, secretType: string): string
  {
    "#key=" + key + "&type=" + secretType
  }

  predicate IsUrlSafeChar(c: char)
  {
    ('A' <= c <= 'Z') || ('a' <= c <= 'z') || ('0' <= c <= '9') || c == '-' || c == '_'
  }

  predicate IsUrlSafeKey(key: string)
  {
    forall i :: 0 <= i < |key| ==> IsUrlSafeChar(key[i])
  }

  predicate Lacks(s: string, c: char)
  {
    forall i :: 0 <= i < |s| ==> s[i] != c
  }

  lemma LacksAppend(a: string, b: string, c: char)
    requires Lacks(a, c) && Lacks(b, c)
    ensures Lacks(a + b, c)
  {
    forall i | 0 <= i < |a + b|
      ensures (a + b)[i] != c
    {
      if i >= |a| {
        assert (a + b)[i] == b[i - |a|];
      }
    }
  }

  lemma UrlSafeKeyLacks(key: string)
    requires IsUrlSafeKey(key)
    ensures Lacks(key, '&') && Lacks(key, '=') && Lacks(key, '+')
  {
  }

  lemma SplitWithout(s: string, sep: char)
    requires Lacks(s, sep)
    ensures SplitOn(s, sep) == [s]
  {
  }

  lemma SplitAfter(a: string, sep: char, b: string)
    requires Lacks(a, sep)
    ensures SplitOn(a + [sep] + b, sep) == [a] + SplitOn(b, sep)
  {
    var s := a + [sep] + b;
    assert s[|a|] == sep;
    assert IndexOf(s, sep) == |a|;
    assert s[..|a|] == a && s[|a| + 1..] == b;
  }

  lemma FormDecodeKeeps(s: string)
    requires Lacks(s, '+')
    ensures FormDecode(s) == s
  {
  }

  /** A `name=value` piece whose name has no '=' and neither part a '+' reads back as written. */
  lemma ParsePairOf(name: string, value: string)
    requires Lacks(name, '=') && Lacks(name, '+') && Lacks(value, '+')
    ensures ParsePair(name + "=" + value) == (name, value)
  {
    var piece := name + "=" + value;
    assert piece[|name|] == '=';
    assert IndexOf(piece, '=') == |name|;
    assert piece[..|name|] == name && piece[|name| + 1..] == value;
    FormDecodeKeeps(name);
    FormDecodeKeeps(value);
  }

  /** What `ParseHash` reads off a fragment, given the pairs of its query. */
  lemma ParseHashPairs(hash: string, query: string, pairs: seq<(string, string)>)
    requires hash != [] && hash[1..] == query && (query == [] || query[0] != '?')
    requires PairsOf(SplitOn(query, '&')) == pairs
    ensures ParseHash(hash) == Fragment(Lookup(pairs, "key"),
      if Truthy(Lookup(pairs, "type")) then Lookup(pairs, "type").value else "text")
  {
  }

  /**
   * The share link round trip: the fragment the create pages build reads
   * back as the same key and the same type.
   */
  lemma ParseShareFragment(key: string, secretType: string)
    requires IsUrlSafeKey(key)
    requires secretType == "text" || secretType == "file"
    ensures ParseHash(ShareFragment(key, secretType)) == Fragment(Some(key), secretType)
  {
    UrlSafeKeyLacks(key);
    assert Lacks(secretType, '+') && Lacks(secretType, '&');
    TwoPairs("key", key, "type", secretType);
    ShareFragmentQuery(key, secretType);
    ParseHashPairs(ShareFragment(key, secretType), "key" + "=" + key + "&" + "type" + "=" + secretType,
                   [("key", key), ("type", secretType)]);
  }

  lemma ShareFragmentQuery(key: string, secretType: string)
    ensures ShareFragment(key, secretType)[1..] == "key" + "=" + key + "&" + "type" + "=" + secretType
  {
    assert ShareFragment(key, secretType) == "#" + ("key" + "=" + key + "&" + "type" + "=" + secretType);
  }

  /** `a=x&b=y` reads as the two pairs, when the pieces hold no separator. */
  lemma TwoPairs(a: string, x: string, b: string, y: string)
    requires Lacks(a, '=') && Lacks(a, '+') && Lacks(a, '&') && a != []
    requires Lacks(x, '+') && Lacks(x, '&')
    requires Lacks(b, '=') && Lacks(b, '+') && Lacks(b, '&') && b != []
    requires Lacks(y, '+') && Lacks(y, '&')
    ensures PairsOf(SplitOn(a + "=" + x + "&" + b + "=" + y, '&')) == [(a, x), (b, y)]
  {
    var first := a + "=" + x;
    var second := b + "=" + y;
    LacksAppend(a, "=", '&');
    LacksAppend(a + "=", x, '&');
    LacksAppend(b, "=", '&');
    LacksAppend(b + "=", y, '&');
    assert a + "=" + x + "&" + b + "=" + y == first + "&" + second;
    SplitAfter(first, '&', second);
    SplitWithout(second, '&');
    ParsePairOf(a, x);
    ParsePairOf(b, y);
    var pieces := [first, second];
    assert pieces[1..] == [second];
    assert PairsOf([second]) == [(b, y)] + PairsOf([]);
  }

  /** A '?' right after the '#' is ignored, as `URLSearchParams` ignores it. */
  lemma QuestionMarkIgnored(rest: string)
    requires rest == [] || rest[0] != '?'
    ensures ParseHash("#?" + rest) == ParseHash("#" + rest)
  {
    assert ("#?" + rest)[1..] == "?" + rest;
    assert ("?" + rest)[1..] == rest;
    assert ("#" + rest)[1..] == rest;
  }

  /** A fragment without a `type` parameter is read as a text secret. */
  lemma TypeDefaultsToText(key: string)
    requires IsUrlSafeKey(key)
    ensures ParseHash("#key=" + key) == Fragment(Some(key), "text")
  {
    UrlSafeKeyLacks(key);
    var query := "key" + "=" + key;
    LacksAppend("key=", key, '&');
    assert "key" + "=" + key == "key=" + key;
    assert ("#key=" + key)[1..] == query;
    SplitWithout(query, '&');
    ParsePairOf("key", key);
    assert PairsOf([query]) == [("key", key)] + PairsOf([]);
    ParseHashPairs("#key=" + key, query, [("key", key)]);
  }

  /** Base64 characters map into the URL-safe alphabet. */
  predicate IsStandardChar(c: char)
  {
    ('A' <= c <= 'Z') || ('a' <= c <= 'z') || ('0' <= c <= '9') || c == '+' || c == '/'
  }

  /**
   * From link creation to key import: an exported key in padded standard
   * base64 survives `toUrlSafeBase64`, the share fragment, `parseHash` and
   * `fromUrlSafeBase64` unchanged.
   */
  lemma KeyThroughShareLink(body: string, k: nat, secretType: string)
    requires forall i :: 0 <= i < |body| ==> IsStandardChar(body[i])
    requires k < 4 && (|body| + k) % 4 == 0
    requires secretType == "text" || secretType == "file"
    ensures var key := CryptoText.ToUrlSafeBase64(body + CryptoText.Padding(k));
      && ParseHash(ShareFragment(key, secretType)) == Fragment(Some(key), secretType)
      && CryptoText.Restored(key) == body + CryptoText.Padding(k)
  {
    var key := CryptoText.ToUrlSafeBase64(body + CryptoText.Padding(k));
    CryptoText.UrlSafeRoundTrip(body, k);
    var escaped := CryptoText.ToUrlSafeAlphabet(body);
    assert key == escaped by {
      CryptoText.MapPaddedText(body, k);
      CryptoText.RemoveCharAppend(escaped, CryptoText.Padding(k), '=');
      CryptoText.RemoveAbsentChar(escaped, '=');
      CryptoText.RemovePadding(k);
    }
    ParseShareFragment(key, secretType);
  }

  // ---------------------------------------------------------------------
  // The page's state machine.
  // ---------------------------------------------------------------------

  datatype Status = Loading | Confirm | Password | Decrypting | Success | Error

  datatype PasswordData = PasswordData(hash: Option<string>, salt: Option<string>, iv: Option<string>)

  /** How `checkSecretExists` ended: it threw, or it returned a probe result. */
  datatype Probe =
    | ProbeThrew
    | ProbeResult(found: bool, hasPassword: bool,
                  passwordHash: Option<string>, passwordSalt: Option<string>, passwordIv: Option<string>)

  /** How an awaited step ended. */
  datatype Outcome = Completed | Threw(message: string)

  datatype Endpoint = TextEndpoint | FileEndpoint

  /** What the page does, in order: status changes, the probe, the password check, the consuming fetch. */
  datatype Effect =
    | StatusSet(status: Status)
    | ProbeSent(secretType: string)
    | PasswordChecked(valid: bool)
    | SecretFetched(endpoint: Endpoint)

  const MissingKey := "Invalid link: Missing encryption key"
  const NotFound := "Secret not found or already accessed"
  const IncorrectPassword := "Incorrect password"
  /** What the engine reports when `fromUrlSafeBase64` is handed a null key. */
  const NullKeyMessage := "Cannot read properties of null (reading 'replace')"

  /** `err.message || 'Failed to decrypt secret'` */
  function ErrorText(message: string): string
  {
    if message == "" then "Failed to decrypt secret" else message
  }

  /** `getEncryptedText` for type "text", `getEncryptedFile` for any other type. */
  function EndpointFor(secretType: string): Endpoint
  {
    if secretType == "text" then TextEndpoint else FileEndpoint
  }

  /** The effects of the reveal step once it has set status 'decrypting'. */
  function DecryptEffects(key: Option<string>, secretType: string, keyImport: Outcome, retrieval: Outcome): seq<Effect>
  {
    [StatusSet(Decrypting)] +
    if key.None? || keyImport.Threw? then [StatusSet(Error)]
    else [SecretFetched(EndpointFor(secretType))] + [StatusSet(if retrieval.Completed? then Success else Error)]
  }

  predicate Fetches(effects: seq<Effect>)
  {
    exists i :: 0 <= i < |effects| && effects[i].SecretFetched?
  }

  class RevealPage {
    const id: string
    const hash: string
    var status: Status
    var error: string
    var secretType: Option<string>
    var hasPassword: bool
    var passwordError: string
    var passwordData: Option<PasswordData>
    ghost var effects: seq<Effect>

    /** The page's initial state. */
    constructor (id: string, hash: string)
      ensures this.id == id && this.hash == hash
      ensures status == Loading && error == "" && secretType == None && !hasPassword
      ensures passwordError == "" && passwordData == None && effects == []
    {
      this.id := id;
      this.hash := hash;
      status := Loading;
      error := "";
      secretType := None;
      hasPassword := false;
      passwordError := "";
      passwordData := None;
      effects := [];
    }

    /**
     * The `checkSecret` effect. Without a key the page fails and sends no
     * probe. Otherwise it probes: "does not exist" fails the page, a thrown
     * probe and a normal answer both lead to 'confirm'; password data is
     * kept only when the probe reports a password.
     */
    method CheckSecret(probe: Probe)
      modifies this
      ensures var fragment := ParseHash(hash);
        !Truthy(fragment.key) ==>
          && status == Error && error == MissingKey
          && effects == old(effects) + [StatusSet(Error)]
          && secretType == old(secretType) && hasPassword == old(hasPassword) && passwordData == old(passwordData)
      ensures var fragment := ParseHash(hash);
        Truthy(fragment.key) ==>
          && secretType == Some(fragment.secretType)
          && |effects| > |old(effects)| && effects[..|old(effects)| + 1] == old(effects) + [ProbeSent(fragment.secretType)]
      ensures Truthy(ParseHash(hash).key) && probe.ProbeThrew? ==>
        && status == Confirm && hasPassword == old(hasPassword) && passwordData == old(passwordData)
        && effects == old(effects) + [ProbeSent(ParseHash(hash).secretType), StatusSet(Confirm)]
      ensures Truthy(ParseHash(hash).key) && probe.ProbeResult? && !probe.found ==>
        && status == Error && error == NotFound && hasPassword == old(hasPassword) && passwordData == old(passwordData)
        && effects == old(effects) + [ProbeSent(ParseHash(hash).secretType), StatusSet(Error)]
      ensures Truthy(ParseHash(hash).key) && probe.ProbeResult? && probe.found ==>
        && status == Confirm && hasPassword == probe.hasPassword
        && passwordData == (if probe.hasPassword
                            then Some(PasswordData(probe.passwordHash, probe.passwordSalt, probe.passwordIv))
                            else old(passwordData))
        && effects == old(effects) + [ProbeSent(ParseHash(hash).secretType), StatusSet(Confirm)]
      ensures passwordError == old(passwordError)
    {
      var fragment := ParseHash(hash);
      if !Truthy(fragment.key) {
        status := Error;
        effects := effects + [StatusSet(Error)];
        error := MissingKey;
        return;
      }
      secretType := Some(fragment.secretType);
      effects := effects + [ProbeSent(fragment.secretType)];
      match probe {
        case ProbeThrew =>
          status := Confirm;
          effects := effects + [StatusSet(Confirm)];
        case ProbeResult(found, probeHasPassword, passwordHash, passwordSalt, passwordIv) =>
          if !found {
            status := Error;
            effects := effects + [StatusSet(Error)];
            error := NotFound;
            return;
          }
          hasPassword := probeHasPassword;
          if probeHasPassword {
            passwordData := Some(PasswordData(passwordHash, passwordSalt, passwordIv));
          }
          status := Confirm;
          effects := effects + [StatusSet(Confirm)];
      }
    }

    /**
     * `handleReveal`. From 'confirm' with a password it only moves to
     * 'password'. When password data is held the password is checked first,
     * and a wrong one sets the password error and stops with no fetch.
     * Otherwise the status becomes 'decrypting', the key is converted and
     * imported, and only then is the consuming fetch made; the page ends in
     * 'success' or, if any step threw, 'error'.
     */
    method HandleReveal(passwordValid: bool, keyImport: Outcome, retrieval: Outcome)
      modifies this
      ensures old(hasPassword && status == Confirm) ==>
        && status == Password && effects == old(effects) + [StatusSet(Password)]
        && passwordError == old(passwordError) && error == old(error)
      ensures !old(hasPassword && status == Confirm) && old(hasPassword && passwordData.Some?) && !passwordValid ==>
        && status == old(status) && passwordError == IncorrectPassword && error == old(error)
        && effects == old(effects) + [PasswordChecked(false)]
      ensures !old(hasPassword && status == Confirm) && (old(hasPassword && passwordData.Some?) ==> passwordValid) ==>
        var fragment := ParseHash(hash);
        && passwordError == ""
        && effects == old(effects)
                      + (if old(hasPassword && passwordData.Some?) then [PasswordChecked(true)] else [])
                      + DecryptEffects(fragment.key, fragment.secretType, keyImport, retrieval)
        && (status == Success <==> fragment.key.Some? && keyImport.Completed? && retrieval.Completed?)
        && (status != Success ==> status == Error)
        && (fragment.key.None? ==> error == ErrorText(NullKeyMessage))
        && (fragment.key.Some? && keyImport.Threw? ==> error == ErrorText(keyImport.message))
        && (fragment.key.Some? && keyImport.Completed? && retrieval.Threw? ==> error == ErrorText(retrieval.message))
      ensures Fetches(effects[|old(effects)|..]) ==>
        && !old(hasPassword && status == Confirm)
        && (old(hasPassword && passwordData.Some?) ==> passwordValid)
      ensures hasPassword == old(hasPassword) && passwordData == old(passwordData) && secretType == old(secretType)
    {
      if hasPassword && status == Confirm {
        status := Password;
        effects := effects + [StatusSet(Password)];
        return;
      }
      var fragment := ParseHash(hash);
      passwordError := "";
      if hasPassword && passwordData.Some? {
        effects := effects + [PasswordChecked(passwordValid)];
        if !passwordValid {
          passwordError := IncorrectPassword;
          return;
        }
      }
      Decrypt(ParseHash(hash), keyImport, retrieval);
      assert Fetches(effects[|old(effects)|..]) ==> (old(hasPassword && passwordData.Some?) ==> passwordValid);
    }

    /**
     * The part of `handleReveal` after the password check: status
     * 'decrypting', the key conversion and import, then the consuming fetch.
     */
    method Decrypt(fragment: Fragment, keyImport: Outcome, retrieval: Outcome)
      modifies this
      ensures effects == old(effects) + DecryptEffects(fragment.key, fragment.secretType, keyImport, retrieval)
      ensures status == Success <==> fragment.key.Some? && keyImport.Completed? && retrieval.Completed?
      ensures status != Success ==> status == Error
      ensures fragment.key.None? ==> error == ErrorText(NullKeyMessage)
      ensures fragment.key.Some? && keyImport.Threw? ==> error == ErrorText(keyImport.message)
      ensures fragment.key.Some? && keyImport.Completed? && retrieval.Threw? ==> error == ErrorText(retrieval.message)
      ensures passwordError == old(passwordError)
      ensures hasPassword == old(hasPassword) && passwordData == old(passwordData) && secretType == old(secretType)
    {
      status := Decrypting;
      effects := effects + [StatusSet(Decrypting)];
      if fragment.key.None? {
        status := Error;
        effects := effects + [StatusSet(Error)];
        error := ErrorText(NullKeyMessage);
        return;
      }
      var standardBase64 := CryptoText.FromUrlSafeBase64(fragment.key.value);
      if keyImport.Threw? {
        status := Error;
        effects := effects + [StatusSet(Error)];
        error := ErrorText(keyImport.message);
        return;
      }
      effects := effects + [SecretFetched(EndpointFor(fragment.secretType))];
      if retrieval.Threw? {
        status := Error;
        effects := effects + [StatusSet(Error)];
        error := ErrorText(retrieval.message);
        return;
      }
      status := Success;
      effects := effects + [StatusSet(Success)];
    }
  }

  /**
   * A password-protected secret on a fresh page: reveal, then a wrong
   * password. The page stops at the password prompt with the password error
   * set, and the page's effects hold the password check but no fetch.
   */
  method WrongPasswordFetchesNothing(id: string, hash: string, passwordHash: string, passwordSalt: string, passwordIv: string)
    returns (status: Status, passwordError: string, ghost effects: seq<Effect>)
    requires Truthy(ParseHash(hash).key)
    ensures status == Password && passwordError == IncorrectPassword
    ensures PasswordChecked(false) in effects && !Fetches(effects)
  {
    var page := new RevealPage(id, hash);
    page.CheckSecret(ProbeResult(true, true, Some(passwordHash), Some(passwordSalt), Some(passwordIv)));
    page.HandleReveal(false, Completed, Completed);
    page.HandleReveal(false, Completed, Completed);
    status, passwordError := page.status, page.passwordError;
    effects := page.effects;
  }

  /**
   * When the existence probe throws, the page never learns that the secret
   * has a password: the first reveal goes straight to the consuming fetch
   * and succeeds whatever password would have been asked for.
   */
  method FailedProbeSkipsPassword(id: string, hash: string) returns (status: Status)
    requires ParseHash(hash).key.Some? && ParseHash(hash).key.value != ""
    ensures status == Success
  {
    var page := new RevealPage(id, hash);
    page.CheckSecret(ProbeThrew);
    page.HandleReveal(false, Completed, Completed);
    status := page.status;
  }
}
