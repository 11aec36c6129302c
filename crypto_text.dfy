/**
 * The encoding helpers of the browser client (`client/src/utils/cryptoText.js`):
 * conversion between standard base64 and the URL-safe alphabet of section 5
 * of RFC 4648 with the padding dropped (section 3.2), and the loops that turn
 * bytes into a one-char-per-byte "binary string" for `btoa` and back after
 * `atob` (section 4).
 */
module CryptoText {
  import opened Wrappers

  /** `s.replace(/x/g, y)` for a single character `x`. */
  function ReplaceChar(s: string, from: char, to: char): (r: string)
    ensures |r| == |s|
    ensures forall i :: 0 <= i < |s| ==> r[i] == (if s[i] == from then to else s[i])
  {
    if s == [] then []
    else [if s[0] == from then to else s[0]] + ReplaceChar(s[1..], from, to)
  }

  /** `s.replace(/x/g, '')` for a single character `x`. */
  function RemoveChar(s: string, c: char): (r: string)
    ensures |r| <= |s|
    ensures forall x :: x in r ==> x in s && x != c
  {
    if s == [] then []
    else
      var rest := RemoveChar(s[1..], c);
      assert forall x :: x in rest ==> x in s;
      (if s[0] == c then [] else [s[0]]) + rest
  }

  lemma {:induction false} RemoveCharAppend(a: string, b: string, c: char)
    ensures RemoveChar(a + b, c) == RemoveChar(a, c) + RemoveChar(b, c)
  {
    if a != [] {
      assert (a + b)[1..] == a[1..] + b;
      RemoveCharAppend(a[1..], b, c);
    } else {
      assert a + b == b;
    }
  }

  lemma {:induction false} RemoveAbsentChar(s: string, c: char)
    requires forall i :: 0 <= i < |s| ==> s[i] != c
    ensures RemoveChar(s, c) == s
  {
    if s != [] {
      RemoveAbsentChar(s[1..], c);
    }
  }

  /** `n` padding characters. */
  function Padding(n: nat): (r: string)
    ensures |r| == n
    ensures forall i :: 0 <= i < n ==> r[i] == '='
  {
    if n == 0 then [] else Padding(n - 1) + ['=']
  }

  lemma {:induction false} RemovePadding(n: nat)
    ensures RemoveChar(Padding(n), '=') == []
  {
    if n > 0 {
      RemoveCharAppend(Padding(n - 1), ['='], '=');
      RemovePadding(n - 1);
    }
  }

  /** The first two replacements of `toUrlSafeBase64`: '+' becomes '-', then '/' becomes '_'. */
  function ToUrlSafeAlphabet(base64: string): (r: string)
    ensures |r| == |base64|
    ensures forall i :: 0 <= i < |r| ==>
      r[i] == (if base64[i] == '+' then '-' else if base64[i] == '/' then '_' else base64[i])
  {
    ReplaceChar(ReplaceChar(base64, '+', '-'), '/', '_')
  }

  /**
   * `toUrlSafeBase64`: '+' becomes '-', '/' becomes '_' and every '=' is
   * dropped, in that order.
   */
  function ToUrlSafeBase64(base64: string): (r: string)
    ensures forall x :: x in r ==> x != '+' && x != '/' && x != '='
    ensures |r| <= |base64|
  {
    var mapped := ToUrlSafeAlphabet(base64);
    assert forall x :: x in mapped ==> x != '+' && x != '/';
    RemoveChar(mapped, '=')
  }

  /** The first line of `fromUrlSafeBase64`: '-' becomes '+' and '_' becomes '/'. */
  function FromUrlSafeAlphabet(urlSafe: string): (r: string)
    ensures |r| == |urlSafe|
    ensures forall i :: 0 <= i < |r| ==>
      r[i] == (if urlSafe[i] == '-' then '+' else if urlSafe[i] == '_' then '/' else urlSafe[i])
  {
    ReplaceChar(ReplaceChar(urlSafe, '-', '+'), '_', '/')
  }

  /** The number of '=' that brings a length up to a multiple of four. */
  function PadCount(n: nat): (k: nat)
    ensures k < 4 && (n + k) % 4 == 0
  {
    (4 - n % 4) % 4
  }

  /** What `fromUrlSafeBase64` returns. */
  function Restored(urlSafe: string): string
  {
    FromUrlSafeAlphabet(urlSafe) + Padding(PadCount(|urlSafe|))
  }

  /**
   * `fromUrlSafeBase64`: maps the URL-safe characters back and appends '='
   * until the length is a multiple of four (at most three of them).
   */
  method FromUrlSafeBase64(urlSafe: string) returns (base64: string)
    ensures base64 == Restored(urlSafe)
    ensures |base64| % 4 == 0 && |urlSafe| <= |base64| < |urlSafe| + 4
    ensures base64[..|urlSafe|] == FromUrlSafeAlphabet(urlSafe)
    ensures forall i :: |urlSafe| <= i < |base64| ==> base64[i] == '='
  {
    base64 := ReplaceChar(ReplaceChar(urlSafe, '-', '+'), '_', '/');
    while |base64| % 4 != 0
      invariant |urlSafe| <= |base64| <= |urlSafe| + PadCount(|urlSafe|)
      invariant base64 == FromUrlSafeAlphabet(urlSafe) + Padding(|base64| - |urlSafe|)
      decreases |urlSafe| + PadCount(|urlSafe|) - |base64|
    {
      base64 := base64 + "=";
    }
  }

  /** The characters of standard base64 text before its padding. */
  predicate IsUnpaddedStandard(body: string)
  {
    forall i :: 0 <= i < |body| ==> body[i] != '=' && body[i] != '-' && body[i] != '_'
  }

  /**
   * The share link carries `toUrlSafeBase64` of the exported key and the
   * viewer calls `fromUrlSafeBase64` on it: for padded standard base64 text
   * (a body without '=', '-' or '_', then padding up to a multiple of four)
   * this gives back exactly the original text.
   */
  lemma {:induction false} UrlSafeRoundTrip(body: string, k: nat)
    requires IsUnpaddedStandard(body)
    requires k < 4 && (|body| + k) % 4 == 0
    ensures Restored(ToUrlSafeBase64(body + Padding(k))) == body + Padding(k)
  {
    var escaped := ToUrlSafeAlphabet(body);
    MapPaddedText(body, k);
    RemoveCharAppend(escaped, Padding(k), '=');
    RemoveAbsentChar(escaped, '=');
    RemovePadding(k);
    assert ToUrlSafeBase64(body + Padding(k)) == escaped;
    AlphabetRoundTrip(body);
    assert PadCount(|escaped|) == k;
  }

  /** The alphabet mapping leaves padding alone. */
  lemma MapPaddedText(body: string, k: nat)
    ensures ToUrlSafeAlphabet(body + Padding(k)) == ToUrlSafeAlphabet(body) + Padding(k)
  {
    var s := body + Padding(k);
    assert forall i :: |body| <= i < |s| ==> s[i] == '=';
  }

  /** Mapping to the URL-safe alphabet and back is the identity on standard base64 characters. */
  lemma AlphabetRoundTrip(body: string)
    requires IsUnpaddedStandard(body)
    ensures FromUrlSafeAlphabet(ToUrlSafeAlphabet(body)) == body
  {
  }

  /**
   * The loop of `arrayBufferToBase64`: one character per byte, whose code is
   * the byte's value (`String.fromCharCode`).
   */
  method BytesToBinary(bytes: array<byte>) returns (binary: string)
    ensures |binary| == bytes.Length
    ensures forall i :: 0 <= i < bytes.Length ==> binary[i] as int == bytes[i] as int
  {
    binary := "";
    for i := 0 to bytes.Length
      invariant |binary| == i
      invariant forall j :: 0 <= j < i ==> binary[j] as int == bytes[j] as int
    {
      binary := binary + [bytes[i] as int as char];
    }
  }

  /**
   * The loop of `base64ToArrayBuffer`: fills a new byte array of the string's
   * length with the character codes, reduced modulo 256 as a `Uint8Array`
   * store does.
   */
  method BinaryToBytes(binary: string) returns (bytes: array<byte>)
    ensures fresh(bytes) && bytes.Length == |binary|
    ensures forall i :: 0 <= i < |binary| ==> bytes[i] as int == binary[i] as int % 256
  {
    bytes := new byte[|binary|];
    for i := 0 to |binary|
      invariant forall j :: 0 <= j < i ==> bytes[j] as int == binary[j] as int % 256
    {
      bytes[i] := (binary[i] as int % 256) as byte;
    }
  }

  /**
   * Exporting a raw key and importing it again, with `btoa` and `atob`
   * undoing each other: the bytes come back unchanged.
   */
  method RawKeyRoundTrip(raw: array<byte>) returns (back: array<byte>)
    ensures back[..] == raw[..]
  {
    var binary := BytesToBinary(raw);
    back := BinaryToBytes(binary);
  }
}
