/** The Nix base32 codec for SHA-256 digests: the byte-window encoder and decoder of the cache,
    and the big-integer encoder of the appliance exporter they must agree with.  */
module NixBase32 {
  import opened Options
  import opened StorePaths

  type Byte = x: int | 0 <= x < 256
  type Digest = d: seq<Byte> | |d| == 32 witness seq(32, _ => 0)

  const ALPHABET: string := "0123456789abcdfghijklmnpqrsvwxyz"
  const ENCODED_LEN: nat := 52

  // The machine operators, on unbounded numbers: no shift of the codec overflows its sixteen
  // bits, `x & 31` is `x % 32` and `x as u8` is `x % 256`.

  function Shl(n: nat, k: nat): nat {
    if k == 0 then n else 2 * Shl(n, k - 1)
  }

  function Shr(n: nat, k: nat): nat {
    if k == 0 then n else Shr(n / 2, k - 1)
  }

  function Or(a: nat, b: nat): nat {
    if a == 0 then b
    else if b == 0 then a
    else (if a % 2 == 1 || b % 2 == 1 then 1 else 0) + 2 * Or(a / 2, b / 2)
  }

  /** Little-endian value of a byte string. */
  function Value(bytes: seq<Byte>): nat {
    if bytes == [] then 0 else bytes[0] + 256 * Value(bytes[1..])
  }

  /** The value written as `len` little-endian bytes. */
  function FromValue(n: nat, len: nat): (bytes: seq<Byte>)
    ensures |bytes| == len
  {
    if len == 0 then [] else [n % 256] + FromValue(n / 256, len - 1)
  }

  /** `nix32`: number the bytes, print base-32 digits from the most significant down. */
  function Nix32(raw: seq<Byte>): (text: string)
    ensures |text| == (|raw| * 8 + 4) / 5
  {
    var len := (|raw| * 8 + 4) / 5;
    seq(len, i requires 0 <= i < len => ALPHABET[Shr(Value(raw), 5 * (len - 1 - i)) % 32])
  }

  /** Value of a digit, by its range; 32 for a character outside the alphabet. */
  function DigitOf(c: char): nat {
    if !IsBase32(c) then 32
    else if c <= '9' then c as int - '0' as int
    else if c <= 'd' then c as int - 'a' as int + 10
    else if c <= 'n' then c as int - 'f' as int + 14
    else if c <= 's' then c as int - 'p' as int + 23
    else c as int - 'v' as int + 27
  }

  lemma AlphabetInOrder(v: nat)
    requires v < 32
    ensures DigitOf(ALPHABET[v]) == v
  {
  }

  lemma PositionIn(alphabet: string, c: char)
    requires |alphabet| == 32 && forall j :: 0 <= j < 32 ==> DigitOf(alphabet[j]) == j
    ensures IndexOf(alphabet, c) == DigitOf(c)
  {
    var i := IndexOf(alphabet, c);
    assert DigitOf(c) < 32 ==> DigitOf(alphabet[DigitOf(c)]) == DigitOf(c);
  }

  /** The ranges are the positions in the alphabet. */
  lemma AlphabetPosition(c: char)
    ensures IndexOf(ALPHABET, c) == DigitOf(c)
  {
    forall j | 0 <= j < 32 ensures DigitOf(ALPHABET[j]) == j { AlphabetInOrder(j); }
    PositionIn(ALPHABET, c);
  }

  /** Value of a base-32 text, most significant digit first. */
  function DigitsValue(text: string): nat {
    if text == "" then 0 else 32 * DigitsValue(text[..|text| - 1]) + DigitOf(text[|text| - 1])
  }

  predicate AllDigits(text: string) {
    forall i :: 0 <= i < |text| ==> DigitOf(text[i]) < 32
  }

  /** 52 alphabet characters whose leading digit fits the one bit a 256-bit digest leaves it. */
  predicate Canonical(text: string) {
    |text| == ENCODED_LEN && AllDigits(text) && DigitOf(text[0]) <= 1
  }

  function Decode(text: string): Option<Digest> {
    if Canonical(text) then Some(FromValue(DigitsValue(text), 32)) else None
  }

  // ---- shifts ----

  lemma {:induction false} ShlAdd(n: nat, m: nat, k: nat)
    ensures Shl(n + m, k) == Shl(n, k) + Shl(m, k)
  {
    if k == 0 {
    } else {
      ShlAdd(n, m, k - 1);
    }
  }

  lemma {:induction false} ShlShl(n: nat, a: nat, b: nat)
    ensures Shl(n, a + b) == Shl(Shl(n, a), b)
  {
    if b == 0 {
    } else {
      ShlShl(n, a, b - 1);
    }
  }

  lemma {:induction false} ShrShr(n: nat, a: nat, b: nat)
    ensures Shr(n, a + b) == Shr(Shr(n, a), b)
  {
    if a == 0 {
    } else {
      ShrShr(n / 2, a - 1, b);
    }
  }

  lemma ShrLast(n: nat, k: nat)
    ensures Shr(n, k + 1) == Shr(n, k) / 2
  {
    ShrShr(n, k, 1);
    assert Shr(Shr(n, k), 1) == Shr(Shr(n, k) / 2, 0);
  }

  lemma SmallShifts(n: nat)
    ensures Shl(n, 5) == 32 * n && Shl(n, 8) == 256 * n
    ensures Shr(n, 5) == n / 32 && Shr(n, 8) == n / 256
  {
    assert Shl(n, 0) == n;
    assert Shl(n, 1) == 2 * n;
    assert Shl(n, 2) == 4 * n;
    assert Shl(n, 3) == 8 * n;
    assert Shl(n, 4) == 16 * n;
    assert Shl(n, 5) == 32 * n;
    assert Shl(n, 6) == 64 * n;
    assert Shl(n, 7) == 128 * n;
    assert Shr(n, 0) == n;
    ShrLast(n, 0);
    ShrLast(n, 1);
    ShrLast(n, 2);
    ShrLast(n, 3);
    ShrLast(n, 4);
    ShrLast(n, 5);
    ShrLast(n, 6);
    ShrLast(n, 7);
  }

  lemma ShlTwoBytes(n: nat)
    ensures Shl(n, 16) == 65536 * n
  {
    ShlShl(n, 8, 8);
    SmallShifts(n);
    SmallShifts(256 * n);
  }

  lemma {:induction false} ShrAboveShl(low: nat, high: nat, k: nat, s: nat)
    requires s <= k
    ensures Shr(low + Shl(high, k), s) == Shr(low, s) + Shl(high, k - s)
  {
    if s == 0 {
    } else {
      assert (low + Shl(high, k)) / 2 == low / 2 + Shl(high, k - 1);
      ShrAboveShl(low / 2, high, k - 1, s - 1);
    }
  }

  lemma {:induction false} ShrZero(k: nat)
    ensures Shr(0, k) == 0
  {
    if k == 0 {
    } else {
      ShrZero(k - 1);
    }
  }

  lemma {:induction false} ShlBelow(a: nat, b: nat, k: nat)
    requires a < b
    ensures Shl(a, k) < Shl(b, k)
  {
    if k == 0 {
    } else {
      ShlBelow(a, b, k - 1);
    }
  }

  lemma {:induction false} OrOfDisjoint(a: nat, b: nat, k: nat)
    requires Shr(a, k) == 0
    ensures Or(a, Shl(b, k)) == Or(Shl(b, k), a) == a + Shl(b, k)
  {
    if k == 0 {
    } else {
      OrOfDisjoint(a / 2, b, k - 1);
    }
  }

  // ---- byte strings as numbers ----

  /** Shifting by whole bytes drops them. */
  lemma {:induction false} ShiftWholeBytes(d: seq<Byte>, i: nat, s: nat)
    requires i <= |d|
    ensures Shr(Value(d), 8 * i + s) == Shr(Value(d[i..]), s)
  {
    if i == 0 {
      assert d[0..] == d;
    } else {
      var k := 8 * (i - 1) + s;
      ShrShr(Value(d), 8, k);
      SmallShifts(Value(d));
      ShiftWholeBytes(d[1..], i - 1, s);
      assert d[1..][i - 1..] == d[i..];
    }
  }

  lemma ValueFits(d: seq<Byte>)
    ensures Shr(Value(d), 8 * |d|) == 0
  {
    ShiftWholeBytes(d, |d|, 0);
  }

  lemma {:induction false} ValueOfFromValue(n: nat, len: nat)
    requires Shr(n, 8 * len) == 0
    ensures Value(FromValue(n, len)) == n
  {
    if len == 0 {
    } else {
      ShrShr(n, 8, 8 * (len - 1));
      SmallShifts(n);
      ValueOfFromValue(n / 256, len - 1);
      assert FromValue(n, len)[1..] == FromValue(n / 256, len - 1);
    }
  }

  lemma {:induction false} FromValueOfValue(d: seq<Byte>)
    ensures FromValue(Value(d), |d|) == d
  {
    if d == [] {
    } else {
      FromValueOfValue(d[1..]);
    }
  }

  // ---- the encoder ----

  /** The two-byte window at a bit offset, as the encoder shifts it together. */
  function Window(d: Digest, bit: nat): nat
    requires bit < 256
  {
    var i, s := bit / 8, bit % 8;
    if i + 1 < |d| then Or(Shr(d[i], s), Shl(d[i + 1], 8 - s)) else Shr(d[i], s)
  }

  lemma TailValue(d: Digest, i: nat)
    requires i < 32
    ensures Value(d[i..])
            == if i + 1 < 32 then d[i] + 256 * d[i + 1] + 65536 * Value(d[i + 2..]) else d[i]
  {
    var tail := d[i..];
    if i + 1 < 32 {
      assert tail[1..] == d[i + 1..];
      assert tail[1..][1..] == d[i + 2..];
    } else {
      assert tail[1..] == [];
    }
  }

  lemma AddMultiple(a: nat, b: nat)
    ensures (a + 32 * b) % 32 == a % 32
  {
  }

  /** Five bits at offset `s` of a long number depend only on its low sixteen. */
  lemma WindowIgnoresRest(low: nat, rest: nat, s: nat)
    requires s < 8
    ensures Shr(low + 65536 * rest, s) % 32 == Shr(low, s) % 32
  {
    ShlTwoBytes(rest);
    ShrAboveShl(low, rest, 16, s);
    var above := Shl(rest, 11 - s);
    assert Shl(rest, 16 - s) == 32 * above by {
      ShlShl(rest, 11 - s, 5);
      SmallShifts(above);
    }
    AddMultiple(Shr(low, s), above);
  }

  lemma WindowSum(x: Byte, y: Byte, s: nat)
    requires s < 8
    ensures Or(Shr(x, s), Shl(y, 8 - s)) == Shr(x + 256 * y, s)
  {
    SmallShifts(y);
    ShrAboveShl(x, y, 8, s);
    ShrShr(x, s, 8 - s);
    SmallShifts(x);
    OrOfDisjoint(Shr(x, s), y, 8 - s);
  }

  /** The window the encoder shifts out is the base-32 digit of the whole number. */
  lemma WindowIsDigit(d: Digest, position: nat)
    requires position < ENCODED_LEN
    ensures Window(d, 5 * position) % 32 == Shr(Value(d), 5 * position) % 32
  {
    var i, s := 5 * position / 8, 5 * position % 8;
    ShiftWholeBytes(d, i, s);
    TailValue(d, i);
    if i + 1 < 32 {
      WindowSum(d[i], d[i + 1], s);
      var x: nat, y: nat := d[i], d[i + 1];
      WindowIgnoresRest(x + 256 * y, Value(d[i + 2..]), s);
    }
  }

  lemma WindowIsPrinted(d: Digest, position: nat)
    requires position < ENCODED_LEN
    ensures Nix32(d)[ENCODED_LEN - 1 - position] == ALPHABET[Window(d, 5 * position) % 32]
  {
    WindowIsDigit(d, position);
  }

  method EncodeNixBase32(d: Digest) returns (text: string)
    ensures text == Nix32(d)
  {
    ghost var want := Nix32(d);
    var encoded := new char[ENCODED_LEN](_ => '0');
    for position := 0 to ENCODED_LEN
      invariant forall j :: ENCODED_LEN - position <= j < ENCODED_LEN ==> encoded[j] == want[j]
    {
      var bit := position * 5;
      var i, s := bit / 8, bit % 8;
      var value := Shr(d[i], s);
      if i + 1 < |d| {
        value := Or(value, Shl(d[i + 1], 8 - s));
      }
      WindowIsPrinted(d, position);
      encoded[ENCODED_LEN - 1 - position] := ALPHABET[value % 32];
    }
    text := encoded[..];
  }

  // ---- the decoder ----

  lemma {:induction false} ValueUpdate(d: seq<Byte>, i: nat, x: Byte)
    requires i < |d| && d[i] <= x
    ensures Value(d[i := x]) == Value(d) + Shl(x - d[i], 8 * i)
  {
    if i == 0 {
      assert d[0 := x][1..] == d[1..];
    } else {
      ValueUpdate(d[1..], i - 1, x);
      assert d[i := x][1..] == d[1..][i - 1 := x];
      ShlShl(x - d[i], 8 * (i - 1), 8);
      SmallShifts(Shl(x - d[i], 8 * (i - 1)));
    }
  }

  /** A number that ends in many zero bits has zero low bytes. */
  lemma {:induction false} ZeroBytesBelow(d: seq<Byte>, i: nat, k: nat, q: nat)
    requires i <= |d| && Value(d) == Shl(q, 8 * i + k)
    ensures Value(d[i..]) == Shl(q, k)
  {
    if i == 0 {
      assert d[0..] == d;
    } else {
      var rest := Shl(q, 8 * (i - 1) + k);
      ShlShl(q, 8 * (i - 1) + k, 8);
      SmallShifts(rest);
      ZeroBytesBelow(d[1..], i - 1, k, q);
      assert d[1..][i - 1..] == d[i..];
    }
  }

  lemma {:induction false} OrFits(a: nat, b: nat, k: nat)
    requires Shr(a, k) == 0 && Shr(b, k) == 0
    ensures Shr(Or(a, b), k) == 0
  {
    if k == 0 || a == 0 || b == 0 {
    } else {
      OrFits(a / 2, b / 2, k - 1);
    }
  }

  /** The low byte of a number that ends in `k` zero bits ends in `k` zero bits. */
  lemma LowByteShape(x: Byte, rest: nat, q: nat, k: nat) returns (t: nat)
    requires k <= 8 && x + 256 * rest == Shl(q, k)
    ensures x == Shl(t, k)
  {
    var high := Shl(rest, 8 - k);
    assert Shl(high, k) == 256 * rest by {
      ShlShl(rest, 8 - k, k);
      SmallShifts(rest);
    }
    if q < high { ShlBelow(q, high, k); }
    ShlAdd(q - high, high, k);
    t := q - high;
  }

  lemma ByteFits(n: nat)
    ensures n < 256 <==> Shr(n, 8) == 0
  {
    SmallShifts(n);
  }

  lemma FitsMore(n: nat, a: nat, b: nat)
    requires Shr(n, a) == 0
    ensures Shr(n, a + b) == 0
  {
    ShrShr(n, a, b);
    ShrZero(b);
  }

  /** Or-ing a short value under the low byte of a number that ends in `k` zero bits adds it. */
  lemma OrIntoByte(x: Byte, rest: nat, q: nat, k: nat, low: nat)
    requires k <= 8 && x + 256 * rest == Shl(q, k) && Shr(low, k) == 0
    ensures Or(x, low) == x + low < 256
  {
    var t := LowByteShape(x, rest, q, k);
    OrOfDisjoint(low, t, k);
    assert Shr(x, 8) == Shr(low, 8) == 0 by {
      ByteFits(x);
      FitsMore(low, k, 8 - k);
    }
    OrFits(x, low, 8);
    ByteFits(Or(x, low));
  }

  lemma ShiftedDigitFits(v: nat, s: nat)
    requires v < 32
    ensures Shr(Shl(v, s), s + 5) == 0
  {
    ShrShr(Shl(v, s), s, 5);
    ShrAboveShl(0, v, s, s);
    ShrZero(s);
    SmallShifts(v);
  }

  lemma StraddleLow(x: Byte, tail: nat, s: nat, q: nat, v: nat)
    requires s <= 3 && v < 32 && x + 256 * tail == Shl(q, s + 5)
    ensures Or(x, Shl(v, s)) == x + Shl(v, s) < 256
  {
    ShiftedDigitFits(v, s);
    OrIntoByte(x, tail, q, s + 5, Shl(v, s));
  }

  lemma WholeBytes(x: Byte, tail: nat, y: nat)
    requires x + 256 * tail == 256 * y
    ensures x == 0 && tail == y
  {
  }

  lemma HighByteIsFree(x: Byte, tail: nat, s: nat, q: nat)
    requires 3 < s < 8 && x + 256 * tail == Shl(q, s + 5)
    ensures x == 0 && tail == Shl(q, s - 3)
  {
    var y := Shl(q, s - 3);
    assert Shl(q, s + 5) == 256 * y by {
      ShlShl(q, s - 3, 8);
      SmallShifts(y);
    }
    WholeBytes(x, tail, y);
  }

  lemma StraddleHigh(y: Byte, rest: nat, s: nat, q: nat, v: nat)
    requires 3 < s < 8 && v < 32 && y + 256 * rest == Shl(q, s - 3)
    ensures Or(y, Shl(v, s) / 256) == y + Shl(v, s) / 256 < 256
  {
    assert Shr(Shl(v, s) / 256, s - 3) == 0 by {
      ShiftedDigitFits(v, s);
      ShrShr(Shl(v, s), 8, s - 3);
      SmallShifts(Shl(v, s));
    }
    OrIntoByte(y, rest, q, s - 3, Shl(v, s) / 256);
  }

  /** What one digit does to the two bytes it straddles. */
  lemma DigitStraddles(d: Digest, i: nat, s: nat, q: nat, v: nat)
    requires i < 32 && s < 8 && v < 32
    requires Value(d[i..]) == Shl(q, s + 5)
    requires i + 1 < 32 || Shl(v, s) < 256
    ensures var shifted := Shl(v, s);
            && Or(d[i], shifted % 256) == d[i] + shifted % 256 < 256
            && (i + 1 < 32 ==> Or(d[i + 1], shifted / 256) == d[i + 1] + shifted / 256 < 256)
  {
    var tail := Value(d[i + 1..]);
    assert d[i..][1..] == d[i + 1..];
    if s <= 3 {
      StraddleLow(d[i], tail, s, q, v);
    } else {
      HighByteIsFree(d[i], tail, s, q);
      if i + 1 < 32 {
        assert d[i + 1..][1..] == d[i + 2..];
        StraddleHigh(d[i + 1], Value(d[i + 2..]), s, q, v);
      }
    }
  }

  function OrByte(a: Byte, b: Byte): (r: Byte)
    ensures r == Or(a, b)
  {
    SmallShifts(a);
    SmallShifts(b);
    OrFits(a, b, 8);
    SmallShifts(Or(a, b));
    Or(a, b)
  }

  lemma {:induction false} ShlGrows(n: nat, a: nat, b: nat)
    ensures Shl(n, a) <= Shl(n, a + b)
  {
    if b == 0 {
    } else {
      ShlGrows(n, a, b - 1);
    }
  }

  /** A base-32 digit shifted into a byte window, in sixteen bits. */
  function Shifted(v: nat, s: nat): (r: nat)
    requires v < 32 && s < 8
    ensures r == Shl(v, s) && r / 256 < 256
  {
    ShlGrows(v, s, 8 - s);
    SmallShifts(v);
    Shl(v, s)
  }

  /** The bytes after or-ing in digit `v` at bit `s` of byte `i`. */
  function PlaceDigit(d: Digest, i: nat, s: nat, v: nat): Digest
    requires i < 32 && s < 8 && v < 32
  {
    var shifted := Shifted(v, s);
    var d' := d[i := OrByte(d[i], shifted % 256)];
    if i + 1 < 32 then d'[i + 1 := OrByte(d[i + 1], shifted / 256)] else d'
  }

  lemma TwoByteUpdate(d: Digest, i: nat, low: nat, high: nat)
    requires i + 1 < 32 && d[i] + low < 256 && d[i + 1] + high < 256
    ensures Value(d[i := d[i] + low][i + 1 := d[i + 1] + high]) == Value(d) + Shl(low + 256 * high, 8 * i)
  {
    ValueUpdate(d, i, d[i] + low);
    ValueUpdate(d[i := d[i] + low], i + 1, d[i + 1] + high);
    assert Shl(low, 8 * i) + Shl(high, 8 * (i + 1)) == Shl(low + 256 * high, 8 * i) by {
      ShlShl(high, 8, 8 * i);
      SmallShifts(high);
      ShlAdd(low, 256 * high, 8 * i);
    }
  }

  lemma AppendDigit(q: nat, v: nat, i: nat, s: nat)
    ensures Shl(q, 8 * i + s + 5) + Shl(Shl(v, s), 8 * i) == Shl(32 * q + v, 8 * i + s)
  {
    ShlShl(v, s, 8 * i);
    ShlShl(q, 5, 8 * i + s);
    SmallShifts(q);
    ShlAdd(32 * q, v, 8 * i + s);
  }

  lemma PlaceDigitAdds(d: Digest, i: nat, s: nat, q: nat, v: nat)
    requires i < 32 && s < 8 && v < 32
    requires Value(d) == Shl(q, 8 * i + s + 5)
    requires i + 1 < 32 || Shl(v, s) < 256
    ensures Value(PlaceDigit(d, i, s, v)) == Value(d) + Shl(Shl(v, s), 8 * i)
  {
    var shifted := Shl(v, s);
    ZeroBytesBelow(d, i, s + 5, q);
    DigitStraddles(d, i, s, q, v);
    if i + 1 < 32 {
      TwoByteUpdate(d, i, shifted % 256, shifted / 256);
    } else {
      ValueUpdate(d, i, d[i] + shifted);
    }
  }

  /** Placing a digit below a number that ends in zero bits appends it in base 32. */
  lemma PlaceDigitAppends(d: Digest, i: nat, s: nat, q: nat, v: nat)
    requires i < 32 && s < 8 && v < 32
    requires Value(d) == Shl(q, 8 * i + s + 5)
    requires i + 1 < 32 || Shl(v, s) < 256
    ensures Value(PlaceDigit(d, i, s, v)) == Shl(32 * q + v, 8 * i + s)
  {
    PlaceDigitAdds(d, i, s, q, v);
    AppendDigit(q, v, i, s);
  }

  lemma {:induction false} ShlOfZero(k: nat)
    ensures Shl(0, k) == 0
  {
    if k == 0 {
    } else {
      ShlOfZero(k - 1);
    }
  }

  lemma {:induction false} ValueOfZeros(d: seq<Byte>)
    requires forall i :: 0 <= i < |d| ==> d[i] == 0
    ensures Value(d) == 0
  {
    if d == [] {
    } else {
      ValueOfZeros(d[1..]);
    }
  }

  /** Only the leading digit can overflow the last byte, and it does exactly from 2 up. */
  lemma OnlyLeadOverflows(position: nat, v: nat)
    requires position < ENCODED_LEN && v < 32
    ensures var bit := (ENCODED_LEN - 1 - position) * 5;
            bit / 8 + 1 == 32 && Shl(v, bit % 8) > 255 <==> position == 0 && v > 1
  {
    if position == 0 {
      SmallShifts(v);
      assert Shl(v, 8) == 2 * Shl(v, 7);
    } else if position == 1 {
      assert Shl(v, 2) == 2 * Shl(v, 1) == 4 * v;
    }
  }

  lemma NextDigit(text: string, k: nat)
    requires k < |text|
    ensures DigitsValue(text[..k + 1]) == 32 * DigitsValue(text[..k]) + DigitOf(text[k])
  {
    assert text[..k + 1][..k] == text[..k];
  }

  /** One round of the decoder: the number grows by the next digit. */
  lemma DecodeRound(position: nat, bit: nat, q: nat, v: nat, d: Digest)
    requires position < ENCODED_LEN && v < 32 && (position == 0 ==> v <= 1)
    requires bit == (ENCODED_LEN - 1 - position) * 5
    requires Value(d) == Shl(q, bit + 5)
    ensures Value(PlaceDigit(d, bit / 8, bit % 8, v)) == Shl(32 * q + v, bit)
  {
    OnlyLeadOverflows(position, v);
    PlaceDigitAppends(d, bit / 8, bit % 8, q, v);
  }

  /** The decoder's loop invariant: `d` holds the first `k` digits, in place. */
  ghost predicate Decoded(encoded: string, k: nat, d: Digest) {
    && |encoded| == ENCODED_LEN && k <= ENCODED_LEN
    && (forall i :: 0 <= i < k ==> DigitOf(encoded[i]) < 32)
    && (k > 0 ==> DigitOf(encoded[0]) <= 1)
    && Value(d) == Shl(DigitsValue(encoded[..k]), (ENCODED_LEN - k) * 5)
  }

  lemma DecodedNothing(encoded: string, d: Digest)
    requires |encoded| == ENCODED_LEN && forall i :: 0 <= i < 32 ==> d[i] == 0
    ensures Decoded(encoded, 0, d)
  {
    ValueOfZeros(d);
    ShlOfZero(ENCODED_LEN * 5);
  }

  lemma DecodedOneMore(encoded: string, k: nat, d: Digest)
    requires k < ENCODED_LEN && Decoded(encoded, k, d)
    requires DigitOf(encoded[k]) < 32 && (k == 0 ==> DigitOf(encoded[k]) <= 1)
    ensures var bit := (ENCODED_LEN - 1 - k) * 5;
            Decoded(encoded, k + 1, PlaceDigit(d, bit / 8, bit % 8, DigitOf(encoded[k])))
  {
    var v, bit, q := DigitOf(encoded[k]), (ENCODED_LEN - 1 - k) * 5, DigitsValue(encoded[..k]);
    assert (ENCODED_LEN - k) * 5 == bit + 5;
    DecodeRound(k, bit, q, v, d);
    NextDigit(encoded, k);
  }

  lemma DecodedAll(encoded: string, d: Digest)
    requires Decoded(encoded, ENCODED_LEN, d)
    ensures Decode(encoded) == Some(d)
  {
    assert encoded[..|encoded|] == encoded;
    FromValueOfValue(d);
  }

  method DecodeNixBase32(encoded: string) returns (r: Option<Digest>)
    ensures r == Decode(encoded)
  {
    if |encoded| != ENCODED_LEN {
      return None;
    }
    var decoded := new Byte[32](_ => 0);
    DecodedNothing(encoded, decoded[..]);
    for position := 0 to |encoded|
      invariant Decoded(encoded, position, decoded[..])
    {
      var value := IndexOf(ALPHABET, encoded[position]);
      AlphabetPosition(encoded[position]);
      if value == |ALPHABET| {
        return None;
      }
      var bit := (|encoded| - 1 - position) * 5;
      var i := bit / 8;
      var shifted := Shifted(value, bit % 8);
      ghost var before: Digest := decoded[..];
      OnlyLeadOverflows(position, value);
      decoded[i] := OrByte(decoded[i], shifted % 256);
      if i + 1 < decoded.Length {
        decoded[i + 1] := OrByte(decoded[i + 1], shifted / 256);
      } else if shifted > 255 {
        return None;
      }
      DecodedOneMore(encoded, position, before);
      assert decoded[..] == PlaceDigit(before, i, bit % 8, value);
    }
    DecodedAll(encoded, decoded[..]);
    r := Some(decoded[..]);
  }

  // ---- round trips ----

  lemma PrintedDigit(d: Digest, i: nat)
    requires i < ENCODED_LEN
    ensures DigitOf(Nix32(d)[i]) == Shr(Value(d), 5 * (ENCODED_LEN - 1 - i)) % 32
  {
    AlphabetInOrder(Shr(Value(d), 5 * (ENCODED_LEN - 1 - i)) % 32);
  }

  lemma DivMod32(n: nat)
    ensures 32 * (n / 32) + n % 32 == n
  {
  }

  /** `text` spells out `n` in base 32. */
  ghost predicate Spells(text: string, n: nat) {
    |text| == ENCODED_LEN
    && forall i :: 0 <= i < ENCODED_LEN ==> DigitOf(text[i]) == Shr(n, 5 * (ENCODED_LEN - 1 - i)) % 32
  }

  /** The first `k` digits are the top of the number. */
  lemma {:induction false} SpelledPrefix(text: string, n: nat, k: nat)
    requires k <= ENCODED_LEN && Spells(text, n) && Shr(n, 256) == 0
    ensures DigitsValue(text[..k]) == Shr(n, 5 * (ENCODED_LEN - k))
  {
    if k == 0 {
      ShrShr(n, 256, 4);
      ShrZero(4);
    } else {
      SpelledPrefix(text, n, k - 1);
      NextDigit(text, k - 1);
      var m := Shr(n, 5 * (ENCODED_LEN - k));
      assert Shr(n, 5 * (ENCODED_LEN - (k - 1))) == m / 32 by {
        ShrShr(n, 5 * (ENCODED_LEN - k), 5);
        SmallShifts(m);
      }
      DivMod32(m);
    }
  }

  lemma EncodedSpells(d: Digest)
    ensures Spells(Nix32(d), Value(d)) && Shr(Value(d), 256) == 0
  {
    forall i | 0 <= i < ENCODED_LEN
      ensures DigitOf(Nix32(d)[i]) == Shr(Value(d), 5 * (ENCODED_LEN - 1 - i)) % 32
    {
      PrintedDigit(d, i);
    }
    ValueFits(d);
  }

  lemma SpelledIsCanonical(text: string, n: nat)
    requires Spells(text, n) && Shr(n, 256) == 0
    ensures Canonical(text) && DigitsValue(text) == n
  {
    ShrLast(n, 255);
    SpelledPrefix(text, n, ENCODED_LEN);
    assert text[..ENCODED_LEN] == text;
  }

  /** What the encoder prints is canonical and has the digest's value. */
  lemma EncodedIsCanonical(d: Digest)
    ensures Canonical(Nix32(d)) && DigitsValue(Nix32(d)) == Value(d)
  {
    EncodedSpells(d);
    SpelledIsCanonical(Nix32(d), Value(d));
  }

  lemma DecodeOfEncode(d: Digest)
    ensures Decode(Nix32(d)) == Some(d)
  {
    EncodedIsCanonical(d);
    FromValueOfValue(d);
  }

  lemma {:induction false} DropDigits(text: string, j: nat)
    requires j <= |text| && AllDigits(text)
    ensures Shr(DigitsValue(text), 5 * j) == DigitsValue(text[..|text| - j])
  {
    if j == 0 {
      assert text[..|text|] == text;
    } else {
      var init := text[..|text| - 1];
      ShrShr(DigitsValue(text), 5, 5 * (j - 1));
      SmallShifts(DigitsValue(text));
      DropDigits(init, j - 1);
      assert init[..|init| - (j - 1)] == text[..|text| - j];
    }
  }

  lemma CanonicalFits(text: string)
    requires Canonical(text)
    ensures Shr(DigitsValue(text), 256) == 0
  {
    DropDigits(text, 51);
    NextDigit(text, 0);
    ShrLast(DigitsValue(text), 255);
  }

  lemma DigitOfInjective(a: char, b: char)
    requires DigitOf(a) == DigitOf(b) < 32
    ensures a == b
  {
  }

  lemma SpelledDigit(text: string, i: nat)
    requires Canonical(text) && i < ENCODED_LEN
    ensures DigitOf(text[i]) == Shr(DigitsValue(text), 5 * (ENCODED_LEN - 1 - i)) % 32
  {
    var v, above := DigitOf(text[i]), DigitsValue(text[..i]);
    assert Shr(DigitsValue(text), 5 * (ENCODED_LEN - 1 - i)) == DigitsValue(text[..i + 1]) by {
      DropDigits(text, ENCODED_LEN - 1 - i);
    }
    assert DigitsValue(text[..i + 1]) == v + 32 * above by { NextDigit(text, i); }
    AddMultiple(v, above);
  }

  lemma CanonicalSpells(text: string)
    requires Canonical(text)
    ensures Spells(text, DigitsValue(text))
  {
    forall i | 0 <= i < ENCODED_LEN
      ensures DigitOf(text[i]) == Shr(DigitsValue(text), 5 * (ENCODED_LEN - 1 - i)) % 32
    {
      SpelledDigit(text, i);
    }
  }

  lemma SpellingIsUnique(a: string, b: string, n: nat)
    requires Spells(a, n) && Spells(b, n)
    ensures a == b
  {
    forall i | 0 <= i < ENCODED_LEN ensures a[i] == b[i] { DigitOfInjective(a[i], b[i]); }
  }

  /** Decoding succeeds exactly on canonical texts, and re-encoding restores them. */
  lemma EncodeOfDecode(text: string)
    ensures Decode(text).Some? <==> Canonical(text)
    ensures Canonical(text) ==> Nix32(Decode(text).value) == text
  {
    if Canonical(text) {
      var d := Decode(text).value;
      CanonicalFits(text);
      ValueOfFromValue(DigitsValue(text), 32);
      CanonicalSpells(text);
      EncodedSpells(d);
      SpellingIsUnique(Nix32(d), text, Value(d));
    }
  }
}
