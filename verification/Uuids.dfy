/** UUIDs as sixteen bytes, with the text form of section 4 of RFC 9562. */
module Uuids {
  import opened Wrappers

  type Uuid = u: seq<nat> | |u| == 16 && forall i :: 0 <= i < |u| ==> u[i] < 256
    witness [0, 0, 0, 0, 0, 0, 0, 0, 0, 0, 0, 0, 0, 0, 0, 0]

  /** Byte order, which is how `Uuid` compares. */
  predicate AtMost(a: seq<nat>, b: seq<nat>) {
    a == [] || (b != [] && (a[0] < b[0] || (a[0] == b[0] && AtMost(a[1..], b[1..]))))
  }

  lemma {:induction false} Total(a: seq<nat>, b: seq<nat>)
    ensures AtMost(a, b) || AtMost(b, a)
    ensures AtMost(a, b) && AtMost(b, a) ==> a == b
  {
    if a != [] && b != [] {
      Total(a[1..], b[1..]);
      assert a == [a[0]] + a[1..] && b == [b[0]] + b[1..];
    }
  }

  /** The order is decided by the first byte that differs. */
  lemma {:induction false} FirstDifference(a: seq<nat>, b: seq<nat>, k: nat)
    requires k < |a| && k < |b| && a[..k] == b[..k] && a[k] < b[k]
    ensures AtMost(a, b) && !AtMost(b, a)
  {
    if k > 0 {
      assert a[0] == a[..k][0] == b[..k][0] == b[0];
      assert a[1..][..k - 1] == a[..k][1..] == b[..k][1..] == b[1..][..k - 1];
      FirstDifference(a[1..], b[1..], k - 1);
    }
  }

  // --------------------------------------------------------------------- hexadecimal

  function HexDigit(n: nat): char
    requires n < 16
  {
    if n < 10 then ('0' as int + n) as char else ('a' as int + n - 10) as char
  }

  function HexValue(c: char): (r: Option<nat>)
    ensures r.Some? ==> r.value < 16
  {
    if '0' <= c <= '9' then Some(c as int - '0' as int)
    else if 'a' <= c <= 'f' then Some(c as int - 'a' as int + 10)
    else if 'A' <= c <= 'F' then Some(c as int - 'A' as int + 10)
    else None
  }

  /** The half byte at hexadecimal position `i`. */
  function Nibble(u: Uuid, i: nat): (n: nat)
    requires i < 32
    ensures n < 16
  {
    if i % 2 == 0 then u[i / 2] / 16 else u[i / 2] % 16
  }

  function Hex(u: Uuid): (s: string)
    ensures |s| == 32 && forall i :: 0 <= i < 32 ==> s[i] == HexDigit(Nibble(u, i))
  {
    seq(32, i requires 0 <= i < 32 => HexDigit(Nibble(u, i)))
  }

  predicate AllHex(s: string) {
    forall i :: 0 <= i < |s| ==> HexValue(s[i]).Some?
  }

  function ByteAt(s: string, i: nat): (b: nat)
    requires AllHex(s) && 2 * i + 1 < |s|
    ensures b < 256
  {
    HexValue(s[2 * i]).value * 16 + HexValue(s[2 * i + 1]).value
  }

  function Unhex(s: string): (r: Option<Uuid>)
    requires |s| == 32
    ensures r.Some? <==> AllHex(s)
    ensures r.Some? ==> forall i :: 0 <= i < 16 ==> r.value[i] == ByteAt(s, i)
  {
    if AllHex(s) then Some(seq(16, i requires 0 <= i < 16 => ByteAt(s, i))) else None
  }

  lemma {:induction false} HexIsHex(u: Uuid)
    ensures AllHex(Hex(u))
  {
  }

  lemma {:induction false} ByteReads(u: Uuid, i: nat)
    requires i < 16 && AllHex(Hex(u))
    ensures ByteAt(Hex(u), i) == u[i]
  {
  }

  lemma {:induction false} UnhexHex(u: Uuid)
    ensures Unhex(Hex(u)) == Some(u)
  {
    HexIsHex(u);
    forall i | 0 <= i < 16 ensures ByteAt(Hex(u), i) == u[i] {
      ByteReads(u, i);
    }
    assert Unhex(Hex(u)).value == u;
  }

  // ---------------------------------------------------------------------------- text

  /** `8-4-4-4-12` hexadecimal digits in lower case, as `Uuid` is displayed. */
  function Text(u: Uuid): (s: string)
    ensures |s| == 36
  {
    var h := Hex(u);
    h[..8] + "-" + h[8..12] + "-" + h[12..16] + "-" + h[16..20] + "-" + h[20..]
  }

  predicate Hyphenated(s: string) {
    |s| == 36 && s[8] == '-' && s[13] == '-' && s[18] == '-' && s[23] == '-'
  }

  function WithoutHyphens(s: string): (h: string)
    requires Hyphenated(s)
    ensures |h| == 32
  {
    s[..8] + s[9..13] + s[14..18] + s[19..23] + s[24..]
  }

  /** The four accepted spellings: simple, hyphenated, braced and URN. */
  function ParseStr(s: string): Option<Uuid> {
    if |s| == 32 then Unhex(s)
    else if |s| == 38 && s[0] == '{' && s[37] == '}' then ParseHyphenated(s[1..37])
    else if |s| == 45 && s[..9] == "urn:uuid:" then ParseHyphenated(s[9..])
    else ParseHyphenated(s)
  }

  function ParseHyphenated(s: string): Option<Uuid> {
    if Hyphenated(s) then Unhex(WithoutHyphens(s)) else None
  }

  lemma {:induction false} TextReads(u: Uuid)
    ensures ParseStr(Text(u)) == Some(u)
  {
    var h, s := Hex(u), Text(u);
    assert s[..8] == h[..8] && s[9..13] == h[8..12] && s[14..18] == h[12..16];
    assert s[19..23] == h[16..20] && s[24..] == h[20..];
    assert WithoutHyphens(s) == h;
    UnhexHex(u);
  }

  lemma {:induction false} TextHasNoUnderscore(u: Uuid)
    ensures '_' !in Text(u)
  {
  }

  /** Where the hexadecimal digit `i` stands in the text. */
  function Position(i: nat): nat {
    if i < 8 then i else if i < 12 then i + 1 else if i < 16 then i + 2 else if i < 20 then i + 3 else i + 4
  }

  /** Lower-case digits, high half of each byte first, with hyphens after 8, 12, 16 and 20 of them. */
  lemma {:induction false} TextShape(u: Uuid, i: nat)
    requires i < 32
    ensures Text(u)[Position(i)] == "0123456789abcdef"[if i % 2 == 0 then u[i / 2] / 16 else u[i / 2] % 16]
    ensures Text(u)[8] == Text(u)[13] == Text(u)[18] == Text(u)[23] == '-'
  {
    DigitIs(Nibble(u, i));
  }

  lemma DigitIs(n: nat)
    requires n < 16
    ensures HexDigit(n) == "0123456789abcdef"[n]
  {
  }

  /** The other three spellings are read as well. */
  lemma {:induction false} SpellingsRead(u: Uuid)
    ensures ParseStr(Hex(u)) == ParseStr("{" + Text(u) + "}") == ParseStr("urn:uuid:" + Text(u)) == Some(u)
  {
    UnhexHex(u);
    TextReads(u);
    assert ("{" + Text(u) + "}")[1..37] == Text(u);
    assert ("urn:uuid:" + Text(u))[..9] == "urn:uuid:" && ("urn:uuid:" + Text(u))[9..] == Text(u);
  }
}
