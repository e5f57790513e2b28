/**
  The Mattermost identifier codec of `backend/src/mattermost_compat/id.rs`.

  Machine words are natural numbers, and their operations are defined bit by bit: `>>` halves,
  masking keeps low bits, `<<` doubles and keeps the 32 low bits, and `|` with a value that fits
  into the shifted-in zeros is addition.
 */
module MmId {
  import opened Wrappers
  import opened Digits
  import opened Strings
  import Uuids

  type Uuid = Uuids.Uuid

  const ALPHABET: string := "ybndrfg8ejkmcpqxot1uwisza345h769"

  // ------------------------------------------------------------------- the closed form

  /** The alphabet letter by letter. */
  function Letter(d: nat): char
    requires d < 32
  {
    match d
    case 0 => 'y' case 1 => 'b' case 2 => 'n' case 3 => 'd' case 4 => 'r' case 5 => 'f' case 6 => 'g' case 7 => '8'
    case 8 => 'e' case 9 => 'j' case 10 => 'k' case 11 => 'm' case 12 => 'c' case 13 => 'p' case 14 => 'q' case 15 => 'x'
    case 16 => 'o' case 17 => 't' case 18 => '1' case 19 => 'u' case 20 => 'w' case 21 => 'i' case 22 => 's' case 23 => 'z'
    case 24 => 'a' case 25 => '3' case 26 => '4' case 27 => '5' case 28 => 'h' case 29 => '7' case 30 => '6' case _ => '9'
  }

  lemma {:induction false} LetterIs(d: nat)
    requires d < 32
    ensures |ALPHABET| == 32 && Letter(d) == ALPHABET[d]
  {
  }

  function IndexFrom(c: char, i: nat): (r: Option<nat>)
    requires i <= 32
    ensures r.Some? ==> i <= r.value < 32 && Letter(r.value) == c
    ensures r.None? ==> forall k :: i <= k < 32 ==> Letter(k) != c
    decreases 32 - i
  {
    if i == 32 then None else if Letter(i) == c then Some(i) else IndexFrom(c, i + 1)
  }

  /** The five bits that a character stands for, ignoring ASCII case. */
  function Symbol(c: char): (r: Option<nat>)
    ensures r.Some? ==> r.value < 32 && Letter(r.value) == LowerChar(c)
    ensures r.None? ==> forall k :: 0 <= k < 32 ==> Letter(k) != LowerChar(c)
  {
    IndexFrom(LowerChar(c), 0)
  }

  lemma {:induction false} LetterAscii(k: nat)
    requires k < 32
    ensures Letter(k) as int < 0x80 && LowerChar(Letter(k)) == Letter(k)
  {
  }

  lemma {:induction false} LettersDistinct(i: nat, j: nat)
    requires i < j < 32
    ensures Letter(i) != Letter(j)
  {
  }

  predicate AllSymbols(s: string) {
    forall i :: 0 <= i < |s| ==> Symbol(s[i]).Some?
  }

  function Symbols(s: string): (ds: seq<nat>)
    requires AllSymbols(s)
    ensures |ds| == |s| && AllBelow(ds, 32)
    ensures forall i :: 0 <= i < |s| ==> Symbol(s[i]) == Some(ds[i])
  {
    seq(|s|, i requires 0 <= i < |s| => Symbol(s[i]).value)
  }

  function Spell(ds: seq<nat>): (s: string)
    requires AllBelow(ds, 32)
    ensures |s| == |ds| && forall i :: 0 <= i < |s| ==> s[i] == Letter(ds[i])
  {
    seq(|ds|, i requires 0 <= i < |ds| => Letter(ds[i]))
  }

  lemma {:induction false} SpellSnoc(ds: seq<nat>, d: nat)
    requires AllBelow(ds, 32) && d < 32
    ensures AllBelow(ds + [d], 32) && Spell(ds + [d]) == Spell(ds) + [Letter(d)]
  {
  }

  /** The identifier is the 26-digit base-32 numeral of the UUID with two zero bits appended. */
  function Encode(u: Uuid): (s: string)
    ensures |s| == 26
  {
    Spell(ToDigits(4 * Value(u, 256), 32, (8 * |u| + 4) / 5))
  }

  function Utf8Length(s: string): nat {
    if s == [] then 0 else
      Utf8Length(s[..|s| - 1]) +
      (var c := s[|s| - 1] as int; if c < 0x80 then 1 else if c < 0x800 then 2 else if c < 0x10000 then 3 else 4)
  }

  predicate WellFormed(s: string) {
    |s| == 26 && AllSymbols(s)
  }

  /** Decoding reads the numeral and drops its two low bits. */
  function Decode(s: string): Option<Uuid> {
    if WellFormed(s) then Some(ToDigits(Value(Symbols(s), 32) / 4, 256, 5 * |s| / 8)) else None
  }

  // ---------------------------------------------------------------------- bit buffers

  /** `x >> n` */
  function Shr(x: nat, n: nat): nat {
    if n == 0 then x else Shr(x / 2, n - 1)
  }

  /** `x & (2^n - 1)`: the low `n` bits. */
  function Low(x: nat, n: nat): (r: nat)
    ensures r < Pow2(n)
  {
    if n == 0 then 0 else 2 * Low(x / 2, n - 1) + x % 2
  }

  /** `x << n` in a word of `w` bits. */
  function Shl(x: nat, n: nat, w: nat): nat {
    Low(Times(x, Pow2(n)), w)
  }

  lemma {:induction false} Twice(x: nat, y: nat)
    ensures Times(x, 2 * y) == 2 * Times(x, y)
  {
    AddRight(x, y, y);
  }

  lemma {:induction false} Pow2Add(m: nat, n: nat)
    ensures Pow2(m + n) == Times(Pow2(m), Pow2(n))
  {
    if n == 0 {
      TimesOne(Pow2(m));
    } else {
      Pow2Add(m, n - 1);
      Twice(Pow2(m), Pow2(n - 1));
    }
  }

  lemma {:induction false} LowTwice(x: nat, m: nat, n: nat)
    requires m <= n
    ensures Low(Low(x, n), m) == Low(x, m)
  {
    if m > 0 {
      LowTwice(x / 2, m - 1, n - 1);
      assert Low(x, n) / 2 == Low(x / 2, n - 1);
    }
  }

  lemma {:induction false} Halve(y: nat, v: nat)
    ensures (2 * y + v) / 2 == y + v / 2 && (2 * y + v) % 2 == v % 2
  {
  }

  /** Bits appended below `x` appear below the low bits of `x`. */
  lemma {:induction false} LowAppend(x: nat, v: nat, m: nat, k: nat)
    requires v < Pow2(k)
    ensures Low(Times(x, Pow2(k)) + v, m + k) == Times(Low(x, m), Pow2(k)) + v
  {
    if k == 0 {
      TimesOne(x);
      TimesOne(Low(x, m));
    } else {
      Twice(x, Pow2(k - 1));
      Halve(Times(x, Pow2(k - 1)), v);
      LowAppend(x, v / 2, m, k - 1);
      Twice(Low(x, m), Pow2(k - 1));
    }
  }

  lemma {:induction false} LowShifted(x: nat, k: nat, m: nat)
    ensures Low(Times(x, Pow2(k)), m + k) == Times(Low(x, m), Pow2(k))
  {
    LowAppend(x, 0, m, k);
  }

  lemma {:induction false} FieldFits(x: nat, v: nat, k: nat, m: nat)
    requires x < Pow2(m) && v < Pow2(k)
    ensures Times(x, Pow2(k)) + v < Pow2(m + k)
  {
    Pow2Add(m, k);
    MulStrict(x, Pow2(m), Pow2(k));
  }

  /** Shifting `k` bits in keeps the word within its `w` bits. */
  lemma {:induction false} ShiftFits(buffer: nat, v: nat, k: nat, w: nat)
    requires v < Pow2(k) && k <= w
    ensures Low(Times(buffer, Pow2(k)), w) + v < Pow2(w)
  {
    LowShifted(buffer, k, w - k);
    FieldFits(Low(buffer, w - k), v, k, w - k);
  }

  lemma {:induction false} TailKept(buffer: nat, bits: nat, v: nat, k: nat, m: nat)
    requires v < Pow2(k) && bits <= m
    ensures Low(Times(Low(buffer, m), Pow2(k)) + v, bits + k) == Times(Low(buffer, bits), Pow2(k)) + v
  {
    LowAppend(Low(buffer, m), v, bits, k);
    LowTwice(buffer, bits, m);
  }

  /** It keeps the unread tail, although the high bits of the word are lost. */
  lemma {:induction false} ShiftIn(buffer: nat, bits: nat, v: nat, k: nat, w: nat)
    requires v < Pow2(k) && bits + k <= w
    ensures Low(Low(Times(buffer, Pow2(k)), w) + v, bits + k) == Times(Low(buffer, bits), Pow2(k)) + v
  {
    LowShifted(buffer, k, w - k);
    TailKept(buffer, bits, v, k, w - k);
  }

  /** The value read so far followed by the unread tail. */
  function Pending(read: nat, buffer: nat, bits: nat): nat {
    if bits == 0 then read else 2 * Pending(read, buffer / 2, bits - 1) + buffer % 2
  }

  lemma {:induction false} PendingSum(read: nat, buffer: nat, bits: nat)
    ensures Pending(read, buffer, bits) == Times(read, Pow2(bits)) + Low(buffer, bits)
  {
    if bits == 0 {
      TimesOne(read);
    } else {
      PendingSum(read, buffer / 2, bits - 1);
      Twice(read, Pow2(bits - 1));
    }
  }

  /** Only the unread bits of the word matter. */
  lemma {:induction false} PendingLow(read: nat, x: nat, m: nat, n: nat)
    requires m <= n
    ensures Pending(read, Low(x, n), m) == Pending(read, x, m)
  {
    if m > 0 {
      PendingLow(read, x / 2, m - 1, n - 1);
      Halve(Low(x / 2, n - 1), x % 2);
    }
  }

  lemma {:induction false} PendingAppend(read: nat, x: nat, v: nat, m: nat, k: nat)
    requires v < Pow2(k)
    ensures Pending(read, Times(x, Pow2(k)) + v, m + k) == Times(Pending(read, x, m), Pow2(k)) + v
  {
    if k == 0 {
      TimesOne(x);
      TimesOne(Pending(read, x, m));
    } else {
      Twice(x, Pow2(k - 1));
      Halve(Times(x, Pow2(k - 1)), v);
      PendingAppend(read, x, v / 2, m, k - 1);
      Twice(Pending(read, x, m), Pow2(k - 1));
    }
  }

  /** Shifting `k` bits into a word of `w` bits appends them to what is pending, although the high
      bits of the word are lost. */
  lemma {:induction false} AppendBits(read: nat, buffer: nat, bits: nat, v: nat, k: nat, w: nat)
    requires v < Pow2(k) && bits + k <= w
    ensures Pending(read, Low(Times(buffer, Pow2(k)), w) + v, bits + k) == Times(Pending(read, buffer, bits), Pow2(k)) + v
  {
    var m := w - k;
    LowShifted(buffer, k, m);
    PendingAppend(read, Low(buffer, m), v, bits, k);
    PendingLow(read, buffer, bits, m);
  }

  /** Taking `k` bits off the top of the unread tail moves them to the value already read. */
  lemma {:induction false} TakeBits(buffer: nat, rest: nat, k: nat, read: nat)
    ensures Pending(Times(read, Pow2(k)) + Low(Shr(buffer, rest), k), buffer, rest) == Pending(read, buffer, k + rest)
  {
    if rest == 0 {
      PendingSum(read, buffer, k);
    } else {
      TakeBits(buffer / 2, rest - 1, k, read);
    }
  }

  // ----------------------------------------------------------------------- the loops

  /** The last symbol holds the three bits left over, padded with two zeros. */
  lemma {:induction false} EncodedFrom(ds: seq<nat>, tail: nat, u: Uuid)
    requires AllBelow(ds, 32) && |ds| == 25 && tail < 8 && Value(u, 256) == Times(Value(ds, 32), 8) + tail
    ensures Encode(u) == Spell(ds + [tail * 4])
  {
    var es := ds + [tail * 4];
    Snoc(ds, tail * 4, 32);
    TimesIs(Value(ds, 32), 8);
    TimesIs(Value(ds, 32), 32);
    assert |es| == (8 * |u| + 4) / 5;
    WrittenAs(4 * Value(u, 256), (8 * |u| + 4) / 5, es, 32);
  }

  lemma {:induction false} WrittenAs(v: nat, n: nat, ds: seq<nat>, b: nat)
    requires b > 0 && AllBelow(ds, b) && Value(ds, b) == v && |ds| == n
    ensures ToDigits(v, b, n) == ds
  {
    WriteRead(ds, b);
  }

  lemma {:induction false} DecodedFrom(u: Uuid, buffer: nat, bits: nat, s: string)
    requires WellFormed(s) && bits == 2 && Pending(Value(u, 256), buffer, bits) == Value(Symbols(s), 32)
    ensures Decode(s) == Some(u)
  {
    PendingSum(Value(u, 256), buffer, bits);
    assert Pow2(2) == 4;
    TimesIs(Value(u, 256), 4);
    DropPad(Value(u, 256), Low(buffer, bits));
    WrittenAs(Value(Symbols(s), 32) / 4, 5 * |s| / 8, u, 256);
  }

  lemma {:induction false} DropPad(x: nat, pad: nat)
    requires pad < 4
    ensures (x * 4 + pad) / 4 == x
  {
  }

  lemma {:induction false} SymbolsSnoc(s: string, c: char)
    requires AllSymbols(s) && Symbol(c).Some?
    ensures AllSymbols(s + [c]) && Symbols(s + [c]) == Symbols(s) + [Symbol(c).value]
  {
  }

  /** `(buffer << k) | v` in `w` bits. If what is pending are the digits `src`, the new word appends
      `v` to them. */
  method ShiftWord(buffer: nat, bits: nat, v: nat, k: nat, w: nat, ghost read: nat, ghost src: seq<nat>) returns (word: nat)
    requires v < Pow2(k) && bits + k <= w && Pending(read, buffer, bits) == Value(src, Pow2(k))
    ensures word < Pow2(w)
    ensures Pending(read, word, bits + k) == Value(src + [v], Pow2(k))
  {
    AppendBits(read, buffer, bits, v, k, w);
    ShiftFits(buffer, v, k, w);
    Snoc(src, v, Pow2(k));
    word := Shl(buffer, k, w) + v;
  }

  /** `(buffer >> (bits - k)) & (2^k - 1)`. Appending the field to the digits read keeps what is pending. */
  method ReadField(buffer: nat, bits: nat, k: nat, ghost out: seq<nat>) returns (field: nat)
    requires k <= bits
    ensures field < Pow2(k)
    ensures Pending(Value(out + [field], Pow2(k)), buffer, bits - k) == Pending(Value(out, Pow2(k)), buffer, bits)
  {
    TakeBits(buffer, bits - k, k, Value(out, Pow2(k)));
    field := Low(Shr(buffer, bits - k), k);
    Snoc(out, field, Pow2(k));
  }

  /** `(buffer << (k - bits)) & (2^k - 1)`: the unread tail padded with zeros on the right. */
  method PadField(buffer: nat, bits: nat, k: nat, w: nat) returns (field: nat)
    requires bits <= k <= w
    ensures field == Times(Low(buffer, bits), Pow2(k - bits)) < Pow2(k)
  {
    ShiftIn(buffer, bits, 0, k - bits, w);
    field := Low(Shl(buffer, k - bits, w), k);
  }

  /** One turn of the inner loop of `encode_base32`: the top five unread bits become a symbol. */
  method EmitSymbol(buffer: nat, bits: nat, prefix: string, ghost before: seq<nat>) returns (output: string, ghost ds: seq<nat>)
    requires bits >= 5 && AllBelow(before, 32) && prefix == Spell(before)
    ensures |ds| == |before| + 1 && AllBelow(ds, 32) && output == Spell(ds)
    ensures Pending(Value(ds, 32), buffer, bits - 5) == Pending(Value(before, 32), buffer, bits)
  {
    assert Pow2(5) == 32;
    var index := ReadField(buffer, bits, 5, before);
    SpellSnoc(before, index);
    output := prefix + [Letter(index)];
    ds := before + [index];
  }

  /** The inner loop of `encode_base32`. */
  method EmitSymbols(buffer: nat, unread: nat, prefix: string, ghost before: seq<nat>)
    returns (bits: nat, output: string, ghost ds: seq<nat>)
    requires unread <= 12 && AllBelow(before, 32) && prefix == Spell(before)
    ensures bits < 5 && 5 * |ds| + bits == 5 * |before| + unread
    ensures AllBelow(ds, 32) && output == Spell(ds)
    ensures Pending(Value(ds, 32), buffer, bits) == Pending(Value(before, 32), buffer, unread)
  {
    bits, output, ds := unread, prefix, before;
    while bits >= 5
      invariant bits <= 12 && 5 * |ds| + bits == 5 * |before| + unread
      invariant AllBelow(ds, 32) && output == Spell(ds)
      invariant Pending(Value(ds, 32), buffer, bits) == Pending(Value(before, 32), buffer, unread)
    {
      output, ds := EmitSymbol(buffer, bits, output, ds);
      bits := bits - 5;
    }
  }

  lemma {:induction false} Padded(buffer: nat, bits: nat, ds: seq<nat>, bytes: Uuid)
    requires bits == 3 && AllBelow(ds, 32) && |ds| == 25 && Pending(Value(ds, 32), buffer, bits) == Value(bytes, 256)
    ensures Times(Low(buffer, bits), Pow2(5 - bits)) < 32
    ensures Encode(bytes) == Spell(ds) + [Letter(Times(Low(buffer, bits), Pow2(5 - bits)))]
  {
    var tail := Low(buffer, bits);
    assert Pow2(3) == 8 && Pow2(2) == 4;
    PendingSum(Value(ds, 32), buffer, bits);
    TimesIs(tail, 4);
    EncodedFrom(ds, tail, bytes);
    SpellSnoc(ds, tail * 4);
  }

  /** One turn of the outer loop: a byte goes in, all complete symbols come out. */
  method EncodeByte(byte: nat, word: nat, unread: nat, prefix: string, ghost src: seq<nat>, ghost before: seq<nat>)
    returns (buffer: nat, bits: nat, output: string, ghost ds: seq<nat>)
    requires byte < 256 && unread < 5 && AllBelow(before, 32) && prefix == Spell(before)
    requires Pending(Value(before, 32), word, unread) == Value(src, 256)
    ensures bits < 5 && 5 * |ds| + bits == 5 * |before| + unread + 8
    ensures AllBelow(ds, 32) && output == Spell(ds)
    ensures Pending(Value(ds, 32), buffer, bits) == Value(src + [byte], 256)
  {
    assert Pow2(8) == 256;
    buffer := ShiftWord(word, unread, byte, 8, 32, Value(before, 32), src);
    bits, output, ds := EmitSymbols(buffer, unread + 8, prefix, before);
  }

  /** Sixteen bytes make 25 symbols and leave three bits. */
  lemma {:induction false} LeftOver(symbols: nat, bits: nat, bytes: nat)
    requires bits < 5 && 5 * symbols + bits == 8 * bytes && bytes == 16
    ensures symbols == 25 && bits == 3
  {
  }

  /** The bits left over make the last symbol. */
  method LastSymbol(buffer: nat, bits: nat, prefix: string, ghost ds: seq<nat>, ghost bytes: Uuid) returns (output: string)
    requires bits == 3 && AllBelow(ds, 32) && prefix == Spell(ds) && |ds| == 25
    requires Pending(Value(ds, 32), buffer, bits) == Value(bytes, 256)
    ensures output == Encode(bytes)
  {
    var index := PadField(buffer, bits, 5, 32);
    Padded(buffer, bits, ds, bytes);
    output := prefix + [Letter(index)];
  }

  /** The loops compute the closed form: five bits at a time, from a word that never holds more than
      twelve unread bits. */
  method EncodeBase32(bytes: Uuid) returns (output: string)
    ensures output == Encode(bytes)
  {
    output := "";
    var buffer: nat, bits: nat := 0, 0;
    ghost var ds: seq<nat> := [];
    for i := 0 to |bytes|
      invariant bits < 5 && 5 * |ds| + bits == 8 * i
      invariant AllBelow(ds, 32) && output == Spell(ds)
      invariant Pending(Value(ds, 32), buffer, bits) == Value(bytes[..i], 256)
    {
      assert bytes[..i + 1] == bytes[..i] + [bytes[i]];
      buffer, bits, output, ds := EncodeByte(bytes[i], buffer, bits, output, bytes[..i], ds);
    }
    assert bytes[..|bytes|] == bytes;
    LeftOver(|ds|, bits, |bytes|);
    if bits > 0 {
      output := LastSymbol(buffer, bits, output, ds, bytes);
    }
  }

  method DecodeChar(ch: char) returns (r: Option<nat>)
    ensures r == Symbol(ch)
  {
    var lower := LowerChar(ch);
    for idx := 0 to 32
      invariant Symbol(ch) == IndexFrom(lower, idx)
    {
      if Letter(idx) == lower {
        return Some(idx);
      }
    }
    return None;
  }

  /** The inner loop of `decode_base32`. */
  method EmitBytes(buffer: nat, unread: nat, before: seq<nat>) returns (bits: nat, bytes: seq<nat>)
    requires unread <= 12 && AllBelow(before, 256)
    ensures bits < 8 && 8 * |bytes| + bits == 8 * |before| + unread && AllBelow(bytes, 256) && before <= bytes
    ensures Pending(Value(bytes, 256), buffer, bits) == Pending(Value(before, 256), buffer, unread)
  {
    bits, bytes := unread, before;
    while bits >= 8
      invariant bits <= 12 && 8 * |bytes| + bits == 8 * |before| + unread && AllBelow(bytes, 256) && before <= bytes
      invariant Pending(Value(bytes, 256), buffer, bits) == Pending(Value(before, 256), buffer, unread)
    {
      assert Pow2(8) == 256;
      var byte := ReadField(buffer, bits, 8, bytes);
      bytes := bytes + [byte];
      bits := bits - 8;
    }
  }

  /** The first sixteen bytes are those that the first 26 symbols of `s` decode to. */
  ghost predicate StartsWithDecoded(bytes: seq<nat>, s: string) {
    |s| >= 26 && |bytes| >= 16 && Decode(s[..26]) == Some(bytes[..16])
  }

  /** The bytes written and the unread bits are together the symbols of `s`. */
  ghost predicate Reading(s: string, bytes: seq<nat>, buffer: nat, bits: nat) {
    && AllSymbols(s) && AllBelow(bytes, 256)
    && bits < 8 && 8 * |bytes| + bits == 5 * |s|
    && Pending(Value(bytes, 256), buffer, bits) == Value(Symbols(s), 32)
  }

  /** After the 26th symbol sixteen bytes are complete, and later symbols do not change them. */
  lemma {:induction false} FirstBytes(before: seq<nat>, bytes: seq<nat>, buffer: nat, bits: nat, s: string)
    requires |s| >= 26 && before <= bytes && Reading(s, bytes, buffer, bits)
    requires |s| > 26 ==> StartsWithDecoded(before, s[..|s| - 1])
    ensures StartsWithDecoded(bytes, s)
  {
    if |s| == 26 {
      assert s[..26] == s && bytes[..16] == bytes;
      DecodedFrom(bytes, buffer, bits, s);
    } else {
      assert s[..|s| - 1][..26] == s[..26] && bytes[..16] == before[..16];
    }
  }

  /** One turn of the outer loop: a symbol goes in, all complete bytes come out. */
  method DecodeSymbol(symbol: nat, word: nat, unread: nat, before: seq<nat>, ghost s: string, ghost c: char)
    returns (buffer: nat, bits: nat, bytes: seq<nat>)
    requires Symbol(c) == Some(symbol) && Reading(s, before, word, unread)
    ensures Reading(s + [c], bytes, buffer, bits) && before <= bytes
  {
    assert Pow2(5) == 32;
    SymbolsSnoc(s, c);
    buffer := ShiftWord(word, unread, symbol, 5, 32, Value(before, 256), Symbols(s));
    bits, bytes := EmitBytes(buffer, unread + 5, before);
  }

  lemma PrefixSnoc(s: string, i: nat)
    requires i < |s|
    ensures s[..i + 1] == s[..i] + [s[i]] && s[..i + 1][..i] == s[..i]
  {
  }

  /** For inputs of any length: an error exactly if some character is no symbol or there are fewer
      than 26; otherwise the decoding of the first 26. */
  method DecodeBase32(input: string) returns (r: Option<Uuid>)
    ensures r == if AllSymbols(input) && |input| >= 26 then Decode(input[..26]) else None
  {
    var buffer: nat, bits: nat := 0, 0;
    var bytes: seq<nat> := [];
    for i := 0 to |input|
      invariant Reading(input[..i], bytes, buffer, bits)
      invariant i >= 26 ==> StartsWithDecoded(bytes, input[..i])
    {
      var value := DecodeChar(input[i]);
      if value.None? {
        return None;
      }
      ghost var before, prefix := bytes, input[..i];
      PrefixSnoc(input, i);
      buffer, bits, bytes := DecodeSymbol(value.value, buffer, bits, bytes, prefix, input[i]);
      if i + 1 >= 26 {
        FirstBytes(before, bytes, buffer, bits, input[..i + 1]);
      }
    }
    assert input[..|input|] == input;
    if |bytes| < 16 {
      return None;
    }
    return Some(bytes[..16]);
  }

  lemma {:induction false} AsciiLength(s: string)
    requires forall i :: 0 <= i < |s| ==> s[i] as int < 0x80
    ensures Utf8Length(s) == |s|
  {
    if s != [] { AsciiLength(s[..|s| - 1]); }
  }

  lemma {:induction false} SymbolsAreAscii(s: string)
    requires AllSymbols(s)
    ensures Utf8Length(s) == |s|
  {
    forall i | 0 <= i < |s| ensures s[i] as int < 0x80 {
      LetterAscii(Symbol(s[i]).value);
    }
    AsciiLength(s);
  }

  method DecodeMmId(id: string) returns (r: Option<Uuid>)
    ensures r == Decode(id)
  {
    if AllSymbols(id) { SymbolsAreAscii(id); }
    if Utf8Length(id) != 26 {
      return None;
    }
    r := DecodeBase32(id);
    assert |id| == 26 ==> id[..26] == id;
  }

  // --------------------------------------------------------------------- main results

  lemma {:induction false} SpellRead(ds: seq<nat>)
    requires AllBelow(ds, 32)
    ensures AllSymbols(Spell(ds)) && Symbols(Spell(ds)) == ds
  {
    var s := Spell(ds);
    forall i | 0 <= i < |s| ensures Symbol(s[i]) == Some(ds[i]) {
      LetterAscii(ds[i]);
      var k := Symbol(s[i]);
      assert k.Some?;
      if k.value < ds[i] { LettersDistinct(k.value, ds[i]); }
      if ds[i] < k.value { LettersDistinct(ds[i], k.value); }
    }
  }

  lemma {:induction false} PowOfPow2(k: nat, n: nat)
    ensures Pow(Pow2(k), n) == Pow2(Times(n, k))
  {
    if n > 0 {
      PowOfPow2(k, n - 1);
      Pow2Add(Times(n - 1, k), k);
    }
  }

  /** 26 symbols hold two bits more than 16 bytes. */
  lemma {:induction false} Ranges(m: nat, n: nat)
    requires m == 26 && n == 16
    ensures Pow(32, m) == 4 * Pow(256, n)
  {
    assert Pow2(5) == 32 && Pow2(8) == 256 && Pow2(2) == 4;
    PowOfPow2(5, m);
    PowOfPow2(8, n);
    TimesIs(m, 5);
    TimesIs(n, 8);
    Pow2Add(Times(n, 8), 2);
    TimesIs(Pow2(Times(n, 8)), 4);
  }

  lemma {:induction false} EncodedValue(u: Uuid)
    ensures Value(ToDigits(4 * Value(u, 256), 32, (8 * |u| + 4) / 5), 32) == 4 * Value(u, 256)
  {
    var n := (8 * |u| + 4) / 5;
    Ranges(n, |u|);
    ValueBound(u, 256);
    ReadWrite(4 * Value(u, 256), 32, n);
  }

  lemma {:induction false} DecodedValue(s: string)
    requires WellFormed(s)
    ensures Value(Decode(s).value, 256) == Value(Symbols(s), 32) / 4
  {
    var n := 5 * |s| / 8;
    Ranges(|s|, n);
    ValueBound(Symbols(s), 32);
    ReadWrite(Value(Symbols(s), 32) / 4, 256, n);
  }

  /** Every UUID survives encoding and decoding. */
  lemma {:induction false} RoundTrip(u: Uuid)
    ensures WellFormed(Encode(u)) && Decode(Encode(u)) == Some(u)
  {
    EncodedValue(u);
    SpellRead(ToDigits(4 * Value(u, 256), 32, (8 * |u| + 4) / 5));
    DecodedValue(Encode(u));
    SameDigits(Decode(Encode(u)).value, u, 256);
  }

  lemma CaseOfSymbol(c: char)
    ensures Symbol(UpperChar(c)) == Symbol(c)
  {
    assert LowerChar(UpperChar(c)) == LowerChar(c);
  }

  /** The upper-cased identifier decodes to the same UUID. */
  lemma {:induction false} UpperDecodes(u: Uuid)
    ensures Decode(Upper(Encode(u))) == Some(u)
  {
    RoundTrip(u);
    var s, t := Encode(u), Upper(Encode(u));
    forall i | 0 <= i < |t| ensures Symbol(t[i]) == Symbol(s[i]) { CaseOfSymbol(s[i]); }
    assert AllSymbols(t) && Symbols(t) == Symbols(s);
  }

  /** A string decodes exactly when it has 26 characters that are all in the alphabet, ignoring case. */
  lemma {:induction false} DecodesExactly(s: string)
    ensures Decode(s).Some? <==> |s| == 26 && forall i :: 0 <= i < |s| ==> LowerChar(s[i]) in ALPHABET
  {
    forall i | 0 <= i < |s| ensures Symbol(s[i]).Some? <==> LowerChar(s[i]) in ALPHABET {
      InAlphabet(s[i]);
    }
  }

  lemma {:induction false} InAlphabet(c: char)
    ensures Symbol(c).Some? <==> LowerChar(c) in ALPHABET
  {
    if Symbol(c).Some? {
      LetterIs(Symbol(c).value);
    } else {
      forall k | 0 <= k < |ALPHABET| ensures ALPHABET[k] != LowerChar(c) {
        LetterIs(k);
      }
    }
  }

  /** The lower-cased string with the two pad bits of its last symbol cleared. */
  function Canonical(s: string): (r: string)
    requires WellFormed(s)
  {
    Spell(Symbols(s)[..25] + [Symbols(s)[25] / 4 * 4])
  }

  /** Decoding and encoding again canonicalises: it lower-cases, and clears the pad bits. */
  lemma {:induction false} ReEncode(s: string)
    requires WellFormed(s)
    ensures Encode(Decode(s).value) == Canonical(s)
    ensures forall i :: 0 <= i < 25 ==> Canonical(s)[i] == LowerChar(s[i])
  {
    var ds, u := Symbols(s), Decode(s).value;
    DecodedParts(s);
    EncodedFrom(ds[..25], ds[25] / 4, u);
  }

  /** The strings agree, ignoring case, on the first 25 symbols and on the top three bits of the last. */
  predicate SameBits(s: string, t: string)
    requires WellFormed(s) && WellFormed(t)
  {
    && (forall i :: 0 <= i < 25 ==> LowerChar(s[i]) == LowerChar(t[i]))
    && Symbols(s)[25] / 4 == Symbols(t)[25] / 4
  }

  lemma {:induction false} SameBitsDecodeAlike(s: string, t: string)
    requires WellFormed(s) && WellFormed(t) && SameBits(s, t)
    ensures Decode(s) == Decode(t)
  {
    DecodedParts(s);
    DecodedParts(t);
    SameSymbols(s, t, 25);
    SameDigits(Decode(s).value, Decode(t).value, 256);
  }

  lemma {:induction false} SameLetter(c: char, d: char)
    requires Symbol(c).Some? && Symbol(c) == Symbol(d)
    ensures LowerChar(c) == LowerChar(d)
  {
  }

  lemma {:induction false} DecodeAlikeSymbols(s: string, t: string)
    requires WellFormed(s) && WellFormed(t) && Decode(s) == Decode(t)
    ensures Symbols(s)[..25] == Symbols(t)[..25] && Symbols(s)[25] / 4 == Symbols(t)[25] / 4
  {
    var ds, es := Symbols(s), Symbols(t);
    DecodedParts(s);
    DecodedParts(t);
    UniqueDivision(Value(ds[..25], 32), ds[25] / 4, Value(es[..25], 32), es[25] / 4, 8);
    SameDigits(ds[..25], es[..25], 32);
  }

  lemma {:induction false} DecodeAlikeSameBits(s: string, t: string)
    requires WellFormed(s) && WellFormed(t) && Decode(s) == Decode(t)
    ensures SameBits(s, t)
  {
    DecodeAlikeSymbols(s, t);
    forall i | 0 <= i < 25 ensures LowerChar(s[i]) == LowerChar(t[i]) {
      assert Symbols(s)[..25][i] == Symbols(t)[..25][i];
      SameLetter(s[i], t[i]);
    }
  }

  /** Two well-formed strings decode alike exactly when they have the same significant bits. */
  lemma {:induction false} DecodeAlikeExactly(s: string, t: string)
    requires WellFormed(s) && WellFormed(t)
    ensures Decode(s) == Decode(t) <==> SameBits(s, t)
  {
    if Decode(s) == Decode(t) {
      DecodeAlikeSameBits(s, t);
    }
    if SameBits(s, t) {
      SameBitsDecodeAlike(s, t);
    }
  }

  lemma {:induction false} DecodedParts(s: string)
    requires WellFormed(s)
    ensures Value(Decode(s).value, 256) == Times(Value(Symbols(s)[..25], 32), 8) + Symbols(s)[25] / 4
    ensures Symbols(s)[25] / 4 < 8
  {
    DecodedValue(s);
    var v := Value(Symbols(s)[..25], 32);
    TimesIs(v, 32);
    TimesIs(v, 8);
    Quarter(v, Symbols(s)[25]);
  }

  lemma {:induction false} SameSymbols(s: string, t: string, n: nat)
    requires AllSymbols(s) && AllSymbols(t) && n <= |s| && n <= |t|
    requires forall i :: 0 <= i < n ==> LowerChar(s[i]) == LowerChar(t[i])
    ensures Symbols(s)[..n] == Symbols(t)[..n]
  {
  }

  lemma {:induction false} Quarter(a: nat, d: nat)
    requires d < 32
    ensures (a * 32 + d) / 4 == a * 8 + d / 4 && d / 4 < 8
  {
  }

  // ------------------------------------------------------------------ either spelling

  /** `parse_mm_or_uuid`: the UUID text first, then the identifier. */
  function ParseMmOrUuid(id: string): Option<Uuid> {
    var u := Uuids.ParseStr(id);
    if u.Some? then u else Decode(id)
  }

  /** No identifier is a UUID text, so both spellings of every UUID are accepted and unambiguous. */
  lemma {:induction false} BothSpellingsParse(u: Uuid)
    ensures ParseMmOrUuid(Encode(u)) == Some(u) == ParseMmOrUuid(Uuids.Text(u))
    ensures Uuids.ParseStr(Encode(u)).None? && Decode(Uuids.Text(u)).None?
  {
    RoundTrip(u);
    Uuids.TextReads(u);
  }
}
