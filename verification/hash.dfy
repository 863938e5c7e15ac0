/**
  The string hash shared by generateThreadId (src/lib/threads.ts:9-13) and
  getAvatarForNick (src/lib/avatars.ts:13-17), with the ECMAScript integer
  conversions it relies on, and Number.prototype.toString(36).
*/
module Hashing {

  const TWO32: int := 0x1_0000_0000
  const TWO31: int := 0x8000_0000

  /** ECMAScript ToInt32: the signed 32-bit integer congruent to `x`
      modulo 2^32. */
  function ToInt32(x: int): (r: int)
    ensures -TWO31 <= r < TWO31
    ensures (x - r) % TWO32 == 0
  {
    (x + TWO31) % TWO32 - TWO31
  }

  /** ToInt32 is determined by the residue: a value in range that is
      congruent to `x` is its ToInt32. */
  lemma ToInt32Unique(x: int, r: int)
    requires -TWO31 <= r < TWO31 && (x - r) % TWO32 == 0
    ensures ToInt32(x) == r
  {
    var k := (x - r) / TWO32;
    assert x == r + k * TWO32;
    var y := x + TWO31;
    assert y == (r + TWO31) + k * TWO32;
    assert 0 <= r + TWO31 < TWO32;
    ModOfMultiple(r + TWO31, k);
  }

  lemma ModOfMultiple(a: int, k: int)
    requires 0 <= a < TWO32
    ensures (a + k * TWO32) % TWO32 == a
  {
  }

  /** ToInt32 only depends on the residue modulo 2^32. */
  lemma ToInt32Congruent(x: int, y: int)
    requires (x - y) % TWO32 == 0
    ensures ToInt32(x) == ToInt32(y)
  {
    var r := ToInt32(y);
    assert (x - r) == (x - y) + (y - r);
    SumOfMultiples(x - y, y - r);
    ToInt32Unique(x, r);
  }

  lemma SumOfMultiples(a: int, b: int)
    requires a % TWO32 == 0 && b % TWO32 == 0
    ensures (a + b) % TWO32 == 0
  {
    assert a == (a / TWO32) * TWO32;
    assert b == (b / TWO32) * TWO32;
    assert a + b == (a / TWO32 + b / TWO32) * TWO32;
  }

  /** `charCodeAt`: the UTF-16 code units of a string of Unicode scalar
      values; characters outside the Basic Multilingual Plane take two. */
  function CodeUnits(s: string): (us: seq<int>)
    ensures |us| >= |s|
    ensures forall i :: 0 <= i < |us| ==> 0 <= us[i] < 0x1_0000
    decreases |s|
  {
    if s == [] then []
    else
      var c := s[0] as int;
      (if c < 0x1_0000 then [c]
       else [0xD800 + (c - 0x1_0000) / 0x400, 0xDC00 + (c - 0x1_0000) % 0x400])
      + CodeUnits(s[1..])
  }

  /** Without characters outside the Basic Multilingual Plane, the code
      units are the characters' own values. */
  lemma {:induction false} CodeUnitsBmp(s: string)
    requires forall i :: 0 <= i < |s| ==> (s[i] as int) < 0x1_0000
    ensures |CodeUnits(s)| == |s|
    ensures forall i :: 0 <= i < |s| ==> CodeUnits(s)[i] == s[i] as int
    decreases |s|
  {
    if s != [] {
      CodeUnitsBmp(s[1..]);
      assert forall i :: 1 <= i < |s| ==> s[1..][i - 1] == s[i];
    }
  }

  /** One step of the loop: `hash = (hash << 5) - hash + code` followed by
      `hash = hash & hash`. The shift works on ToInt32 of its operand and
      gives ToInt32 of the product; the subtraction and addition are exact
      in doubles; `hash & hash` is ToInt32 again. */
  function Step(h: int, u: int): (r: int)
    ensures -TWO31 <= r < TWO31
  {
    ToInt32(ToInt32(ToInt32(h) * 32) - h + u)
  }

  /** The loop, left to right from the hash accumulated so far. */
  function HashFrom(h: int, us: seq<int>): int
    decreases |us|
  {
    if us == [] then h else HashFrom(Step(h, us[0]), us[1..])
  }

  /** The hash of a string: the loop started at 0. */
  function Hash(s: string): (h: int)
    ensures -TWO31 <= h < TWO31
  {
    var us := CodeUnits(s);
    HashFromRange(0, us);
    HashFrom(0, us)
  }

  lemma {:induction false} HashFromRange(h: int, us: seq<int>)
    requires -TWO31 <= h < TWO31
    ensures -TWO31 <= HashFrom(h, us) < TWO31
    decreases |us|
  {
    if us != [] {
      HashFromRange(Step(h, us[0]), us[1..]);
    }
  }

  /** The loop itself, shared by `generateThreadId` and `getAvatarForNick`:
      `hash << 5` is ToInt32 of the operand times 32, `- hash + code` is
      exact, and `hash & hash` brings the sum back to 32 bits. */
  method HashLoop(s: string) returns (hash: int)
    ensures hash == Hash(s)
    ensures -TWO31 <= hash < TWO31
  {
    var us := CodeUnits(s);
    hash := 0;
    var i := 0;
    while i < |us|
      invariant 0 <= i <= |us|
      invariant HashFrom(hash, us[i..]) == HashFrom(0, us)
    {
      var shifted := ToInt32(ToInt32(hash) * 32);
      hash := shifted - hash + us[i];
      hash := ToInt32(hash);
      assert us[i..][1..] == us[i + 1..];
      i := i + 1;
    }
    assert us[i..] == [];
  }

  /** The step is the signed 32-bit wrap-around of `31*h + u`. */
  lemma StepIsTimes31(h: int, u: int)
    requires -TWO31 <= h < TWO31
    ensures Step(h, u) == ToInt32(31 * h + u)
  {
    ToInt32Unique(h, h);
    var p := ToInt32(h * 32);
    assert (h * 32 - p) % TWO32 == 0;
    assert (p - h + u) - (31 * h + u) == -(h * 32 - p);
    NegMultiple(h * 32 - p);
    ToInt32Congruent(p - h + u, 31 * h + u);
  }

  lemma NegMultiple(a: int)
    requires a % TWO32 == 0
    ensures (-a) % TWO32 == 0
  {
    assert a == (a / TWO32) * TWO32;
    assert -a == (-(a / TWO32)) * TWO32;
  }

  /** The independent reference: the polynomial `sum u_i * 31^(n-1-i)`,
      evaluated without any wrap-around. */
  function Poly(us: seq<int>): int
    decreases |us|
  {
    if us == [] then 0 else Poly(us[..|us| - 1]) * 31 + us[|us| - 1]
  }

  /** The polynomial of one more unit. */
  lemma PolySnoc(us: seq<int>, k: nat)
    requires k < |us|
    ensures Poly(us[..k + 1]) == Poly(us[..k]) * 31 + us[k]
  {
    assert us[..k + 1][..k] == us[..k];
  }

  /** The loop computes ToInt32 of the polynomial: the 32-bit wrap-around
      at every step gives the same result as one wrap-around at the end. */
  lemma {:induction false} HashIsPoly(us: seq<int>)
    ensures HashFrom(0, us) == ToInt32(Poly(us))
    decreases |us|
  {
    if us == [] {
      ToInt32Unique(0, 0);
    } else {
      var init := us[..|us| - 1];
      var u := us[|us| - 1];
      HashIsPoly(init);
      HashFromLast(0, init, u);
      assert init + [u] == us;
      var h := HashFrom(0, init);
      HashFromRange(0, init);
      StepIsTimes31(h, u);
      assert Poly(us) == Poly(init) * 31 + u;
      // h == ToInt32(Poly(init)), so 31*h + u is congruent to Poly(us).
      CongruentStep(Poly(init), h, u);
      ToInt32Congruent(31 * h + u, Poly(init) * 31 + u);
    }
  }

  /** One more unit keeps the running value congruent to the polynomial. */
  lemma CongruentStep(p: int, h: int, u: int)
    requires (p - h) % TWO32 == 0
    ensures ((31 * h + u) - (p * 31 + u)) % TWO32 == 0
  {
    var d := h - p;
    NegMultiple(p - h);
    assert (31 * h + u) - (p * 31 + u) == 31 * d;
    ScaleMultiple(d, 31);
  }

  lemma ScaleMultiple(a: int, k: int)
    requires a % TWO32 == 0
    ensures (k * a) % TWO32 == 0
  {
    assert a == (a / TWO32) * TWO32;
    assert k * a == (k * (a / TWO32)) * TWO32;
  }

  /** Running the loop over one more unit is one more step. */
  lemma {:induction false} HashFromLast(h: int, us: seq<int>, u: int)
    ensures HashFrom(h, us + [u]) == Step(HashFrom(h, us), u)
    decreases |us|
  {
    if us == [] {
      assert [] + [u] == [u];
      assert [u][1..] == [];
    } else {
      assert (us + [u])[1..] == us[1..] + [u];
      HashFromLast(Step(h, us[0]), us[1..], u);
    }
  }

  /** `Math.abs`. */
  function Abs(h: int): (r: nat)
    ensures r == h || r == -h
  {
    if h < 0 then -h else h
  }

  /** The characters of a base-36 numeral: `0`-`9` then `a`-`z`. */
  predicate IsDigit36(c: char) {
    '0' <= c <= '9' || 'a' <= c <= 'z'
  }

  /** The digit for a value below 36. */
  function DigitChar(d: nat): (c: char)
    requires d < 36
    ensures IsDigit36(c)
  {
    if d < 10 then ('0' as int + d) as char else ('a' as int + d - 10) as char
  }

  /** `n.toString(36)` for a non-negative integer: most significant digit
      first, no leading zeros, lower-case letters. */
  function Base36(n: nat): (r: string)
    ensures |r| >= 1
    ensures forall i :: 0 <= i < |r| ==> IsDigit36(r[i])
    decreases n
  {
    if n < 36 then [DigitChar(n)] else Base36(n / 36) + [DigitChar(n % 36)]
  }

  /** The value of a base-36 digit. */
  function DigitValue(c: char): (v: nat)
    ensures IsDigit36(c) ==> v < 36 && DigitChar(v) == c
  {
    if '0' <= c <= '9' then c as int - '0' as int
    else if 'a' <= c <= 'z' then c as int - 'a' as int + 10
    else 0
  }

  /** Reading a base-36 numeral back. */
  function Base36Value(s: string): nat
    decreases |s|
  {
    if s == [] then 0 else Base36Value(s[..|s| - 1]) * 36 + DigitValue(s[|s| - 1])
  }

  /** Round trip: the numeral reads back as the number. */
  lemma {:induction false} Base36RoundTrip(n: nat)
    ensures Base36Value(Base36(n)) == n
    decreases n
  {
    var r := Base36(n);
    if n < 36 {
      assert r[..0] == [];
      assert DigitValue(DigitChar(n)) == n;
    } else {
      assert DigitValue(DigitChar(n % 36)) == n % 36;
      Base36RoundTrip(n / 36);
      assert r[..|r| - 1] == Base36(n / 36);
    }
  }

  function Pow36(k: nat): (p: nat)
    ensures p >= 1
  {
    if k == 0 then 1 else 36 * Pow36(k - 1)
  }

  /** A numeral has at most `k` digits exactly when the number is below
      36^k. */
  lemma {:induction false} Base36Length(n: nat, k: nat)
    requires k >= 1
    ensures |Base36(n)| <= k <==> n < Pow36(k)
    decreases n
  {
    if n >= 36 {
      if k == 1 {
        assert |Base36(n)| >= 2;
      } else {
        Base36Length(n / 36, k - 1);
      }
    }
  }

  /** Worked values of the hash, through the polynomial: the two thread
      timestamps of the tests, and two of the nicks. */
  lemma TimestampHashA(s: string)
    requires s == "1234567890.123456"
    ensures Hash(s) == 165290262
  {
    TimestampHashAUnits(s);
    HashIsPoly(CodeUnits(s));
    TimestampHashAPoly(CodeUnits(s));
    ToInt32Unique(36856913083103485472940310, 165290262);
  }

  lemma TimestampHashAUnits(s: string)
    requires s == "1234567890.123456"
    ensures var us := CodeUnits(s);
      |us| == 17 && us[0] == 49 && us[1] == 50 && us[2] == 51 && us[3] == 52
      && us[4] == 53 && us[5] == 54 && us[6] == 55 && us[7] == 56 && us[8] == 57
      && us[9] == 48 && us[10] == 46 && us[11] == 49 && us[12] == 50 && us[13] == 51
      && us[14] == 52 && us[15] == 53 && us[16] == 54
  {
    CodeUnitsBmp(s);
  }

  lemma TimestampHashAPoly(us: seq<int>)
    requires |us| == 17 && us[0] == 49 && us[1] == 50 && us[2] == 51 && us[3] == 52
      && us[4] == 53 && us[5] == 54 && us[6] == 55 && us[7] == 56 && us[8] == 57
      && us[9] == 48 && us[10] == 46 && us[11] == 49 && us[12] == 50 && us[13] == 51
      && us[14] == 52 && us[15] == 53 && us[16] == 54
    ensures Poly(us) == 36856913083103485472940310
  {
    assert us[..0] == [];
    PolySnoc(us, 0);
    PolySnoc(us, 1);
    PolySnoc(us, 2);
    PolySnoc(us, 3);
    PolySnoc(us, 4);
    PolySnoc(us, 5);
    PolySnoc(us, 6);
    PolySnoc(us, 7);
    PolySnoc(us, 8);
    PolySnoc(us, 9);
    PolySnoc(us, 10);
    PolySnoc(us, 11);
    PolySnoc(us, 12);
    PolySnoc(us, 13);
    PolySnoc(us, 14);
    PolySnoc(us, 15);
    PolySnoc(us, 16);
    assert us[..17] == us;
  }

  lemma TimestampHashB(s: string)
    requires s == "9876543210.654321"
    ensures Hash(s) == 1302216176
  {
    TimestampHashBUnits(s);
    HashIsPoly(CodeUnits(s));
    TimestampHashBPoly(CodeUnits(s));
    ToInt32Unique(42820166185604586118462960, 1302216176);
  }
  lemma TimestampHashBUnits(s: string)
    requires s == "9876543210.654321"
    ensures var us := CodeUnits(s);
      |us| == 17 && us[0] == 57 && us[1] == 56 && us[2] == 55 && us[3] == 54
      && us[4] == 53 && us[5] == 52 && us[6] == 51 && us[7] == 50 && us[8] == 49
      && us[9] == 48 && us[10] == 46 && us[11] == 54 && us[12] == 53 && us[13] == 52
      && us[14] == 51 && us[15] == 50 && us[16] == 49
  {
    CodeUnitsBmp(s);
  }
  lemma TimestampHashBPoly(us: seq<int>)
    requires |us| == 17 && us[0] == 57 && us[1] == 56 && us[2] == 55 && us[3] == 54
      && us[4] == 53 && us[5] == 52 && us[6] == 51 && us[7] == 50 && us[8] == 49
      && us[9] == 48 && us[10] == 46 && us[11] == 54 && us[12] == 53 && us[13] == 52
      && us[14] == 51 && us[15] == 50 && us[16] == 49
    ensures Poly(us) == 42820166185604586118462960
  {
    assert us[..0] == [];
    PolySnoc(us, 0);
    PolySnoc(us, 1);
    PolySnoc(us, 2);
    PolySnoc(us, 3);
    PolySnoc(us, 4);
    PolySnoc(us, 5);
    PolySnoc(us, 6);
    PolySnoc(us, 7);
    PolySnoc(us, 8);
    PolySnoc(us, 9);
    PolySnoc(us, 10);
    PolySnoc(us, 11);
    PolySnoc(us, 12);
    PolySnoc(us, 13);
    PolySnoc(us, 14);
    PolySnoc(us, 15);
    PolySnoc(us, 16);
    assert us[..17] == us;
  }

  lemma HashOfBob(s: string)
    requires s == "bob"
    ensures Hash(s) == 97717
  {
    HashOfBobUnits(s);
    HashIsPoly(CodeUnits(s));
    HashOfBobPoly(CodeUnits(s));
    ToInt32Unique(97717, 97717);
  }

  lemma HashOfBobUnits(s: string)
    requires s == "bob"
    ensures var us := CodeUnits(s);
      |us| == 3 && us[0] == 98 && us[1] == 111 && us[2] == 98
  {
    CodeUnitsBmp(s);
  }

  lemma HashOfBobPoly(us: seq<int>)
    requires |us| == 3 && us[0] == 98 && us[1] == 111 && us[2] == 98
    ensures Poly(us) == 97717
  {
    assert us[..0] == [];
    PolySnoc(us, 0);
    PolySnoc(us, 1);
    PolySnoc(us, 2);
    assert us[..3] == us;
  }

  lemma HashOfAlice(s: string)
    requires s == "alice"
    ensures Hash(s) == 92903040
  {
    HashOfAliceUnits(s);
    HashIsPoly(CodeUnits(s));
    HashOfAlicePoly(CodeUnits(s));
    ToInt32Unique(92903040, 92903040);
  }

  lemma HashOfAliceUnits(s: string)
    requires s == "alice"
    ensures var us := CodeUnits(s);
      |us| == 5 && us[0] == 97 && us[1] == 108 && us[2] == 105 && us[3] == 99
      && us[4] == 101
  {
    CodeUnitsBmp(s);
  }

  lemma HashOfAlicePoly(us: seq<int>)
    requires |us| == 5 && us[0] == 97 && us[1] == 108 && us[2] == 105 && us[3] == 99
      && us[4] == 101
    ensures Poly(us) == 92903040
  {
    assert us[..0] == [];
    PolySnoc(us, 0);
    PolySnoc(us, 1);
    PolySnoc(us, 2);
    PolySnoc(us, 3);
    PolySnoc(us, 4);
    assert us[..5] == us;
  }
}
