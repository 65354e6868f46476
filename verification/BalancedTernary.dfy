/** Conversion of 64-bit integers to balanced ternary text (desktop-metal/src/app.rs:1335-1352). */
module BalancedTernary {
  const LOWEST := -0x8000_0000_0000_0000
  const SLOTS := 42

  type i64 = x: int | LOWEST <= x < 0x8000_0000_0000_0000
  type i8 = x: int | -128 <= x < 128

  /** Negation as a release build does it: the lowest value has no positive counterpart and stays. */
  function Negate(x: i64): i64 {
    if x == LOWEST then x else -x
  }

  /** Division by three and its remainder, towards zero. */
  function Third(x: int): (q: int)
    ensures x >= 0 ==> q >= 0 && 3 * q <= x < 3 * q + 3
    ensures x < 0 ==> q <= 0 && 3 * q - 3 < x <= 3 * q
  {
    if x >= 0 then x / 3 else -(-x / 3)
  }

  function Remainder(x: int): int {
    x - 3 * Third(x)
  }

  // ---- reference meaning ----

  /** The value of digits stored least significant first. */
  function ValueOf(ds: seq<int>): int {
    if ds == [] then 0 else ds[0] + 3 * ValueOf(ds[1..])
  }

  function Pow3(k: nat): (p: int)
    ensures p > 0
  {
    if k == 0 then 1 else 3 * Pow3(k - 1)
  }

  predicate Balanced(ds: seq<int>) {
    forall k :: 0 <= k < |ds| ==> -1 <= ds[k] <= 1
  }

  predicate NonPositive(ds: seq<int>) {
    forall k :: 0 <= k < |ds| ==> ds[k] <= 0
  }

  /** Balanced digits without superfluous leading zeros. */
  predicate Normal(ds: seq<int>) {
    Balanced(ds) && (ds != [] ==> ds[|ds| - 1] != 0)
  }

  function DigitOf(c: char): int {
    if c == '+' then 1 else if c == '-' then -1 else 0
  }

  /** Reads digits, most significant first. */
  function ReadDigits(s: string): int {
    if s == "" then 0 else 3 * ReadDigits(s[..|s| - 1]) + DigitOf(s[|s| - 1])
  }

  /** What a text stands for: a leading '-' negates the rest. */
  function Read(s: string): int {
    if s != "" && s[0] == '-' then -ReadDigits(s[1..]) else ReadDigits(s)
  }

  predicate IsBody(s: string) {
    s != "" && s[0] == '+' && forall k :: 0 <= k < |s| ==> s[k] in "+-0"
  }

  /** Zero, or an optional sign and then digits that start with '+'. */
  predicate Canonical(s: string) {
    s == "0" || IsBody(s) || (s != "" && s[0] == '-' && IsBody(s[1..]))
  }

  // ---- arithmetic of digits ----

  lemma {:induction false} ValueOfAppend(ds: seq<int>, d: int)
    ensures ValueOf(ds + [d]) == ValueOf(ds) + d * Pow3(|ds|)
  {
    if ds == [] {
      assert [d][1..] == [];
    } else {
      assert (ds + [d])[1..] == ds[1..] + [d];
      ValueOfAppend(ds[1..], d);
      Reassociate(d, Pow3(|ds| - 1));
    }
  }

  lemma Reassociate(d: int, p: int)
    ensures 3 * (d * p) == d * (3 * p)
  {
  }

  /** `k` balanced digits stay below 3^k / 2 in absolute value. */
  lemma {:induction false} ValueBound(ds: seq<int>)
    requires Balanced(ds)
    ensures -Pow3(|ds|) < 2 * ValueOf(ds) < Pow3(|ds|)
  {
    if ds != [] {
      ValueBound(ds[1..]);
    }
  }

  lemma {:induction false} ValueNonPositive(ds: seq<int>)
    requires NonPositive(ds)
    ensures ValueOf(ds) <= 0
  {
    if ds != [] {
      ValueNonPositive(ds[1..]);
    }
  }

  /** The leading digit decides the sign. */
  lemma LeadingDigit(ds: seq<int>)
    requires ds != [] && Normal(ds)
    ensures ValueOf(ds) != 0 && (ValueOf(ds) > 0 <==> ds[|ds| - 1] == 1)
  {
    var n := |ds| - 1;
    assert ds == ds[..n] + [ds[n]];
    ValueOfAppend(ds[..n], ds[n]);
    ValueBound(ds[..n]);
  }

  /** Normal digits are determined by their value. */
  lemma {:induction false} NormalIsUnique(a: seq<int>, b: seq<int>)
    requires Normal(a) && Normal(b) && ValueOf(a) == ValueOf(b)
    ensures a == b
  {
    if a == [] {
      if b != [] {
        LeadingDigit(b);
      }
    } else if b == [] {
      LeadingDigit(a);
    } else {
      assert a[0] - b[0] == 3 * (ValueOf(b[1..]) - ValueOf(a[1..]));
      NormalIsUnique(a[1..], b[1..]);
      assert a == [a[0]] + a[1..] && b == [b[0]] + b[1..];
    }
  }

  lemma {:induction false} Pow3Sum(j: nat, k: nat)
    ensures Pow3(j + k) == Pow3(j) * Pow3(k)
  {
    if j > 0 {
      Pow3Sum(j - 1, k);
      assert 3 * (Pow3(j - 1) * Pow3(k)) == (3 * Pow3(j - 1)) * Pow3(k);
    }
  }

  lemma {:induction false} Pow3Monotone(j: nat, k: nat)
    requires j <= k
    ensures Pow3(j) <= Pow3(k)
  {
    if j < k {
      Pow3Monotone(j, k - 1);
    }
  }

  lemma Pow3At41()
    ensures Pow3(41) == 36472996377170786403
  {
    assert Pow3(5) == 243;
    Pow3Sum(5, 5);
    Pow3Sum(10, 10);
    Pow3Sum(20, 20);
    assert Pow3(41) == 3 * Pow3(40);
  }

  lemma Magnify(n: int, p: int)
    requires p >= 0
    ensures n > 0 ==> n * p >= p
    ensures n < 0 ==> n * p <= -p
  {
    if n > 0 {
      assert (n - 1) * p >= 0;
    } else if n < 0 {
      assert (-1 - n) * p >= 0;
    }
  }

  /** The digits stored so far, and the quotient still to be converted. */
  function ValueSoFar(ds: seq<int>, n: int): int {
    ValueOf(ds) + n * Pow3(|ds|)
  }

  /** While a quotient is left, fewer than 41 digits have been stored. */
  lemma SlotFree(ds: seq<int>, n: int)
    requires n != 0 && LOWEST <= ValueSoFar(ds, n) <= -LOWEST
    requires if n > 0 then Balanced(ds) else NonPositive(ds)
    ensures |ds| <= 40
  {
    var p := Pow3(|ds|);
    Magnify(n, p);
    if n > 0 {
      ValueBound(ds);
    } else {
      ValueNonPositive(ds);
    }
    Pow3At41();
    if |ds| >= 41 {
      Pow3Monotone(41, |ds|);
    }
  }

  // ---- texts ----

  /** The digit characters of the source's `match`: anything but 1 and -1 becomes '0'. */
  function CharOf(d: int): char {
    if d == 1 then '+' else if d == -1 then '-' else '0'
  }

  function Text(ds: seq<int>): string {
    if ds == [] then "" else Text(ds[1..]) + [CharOf(ds[0])]
  }

  function DigitsOf(s: string): seq<int> {
    if s == "" then [] else [DigitOf(s[|s| - 1])] + DigitsOf(s[..|s| - 1])
  }

  lemma {:induction false} TextReads(ds: seq<int>)
    requires Balanced(ds)
    ensures ReadDigits(Text(ds)) == ValueOf(ds)
  {
    if ds != [] {
      var s := Text(ds);
      assert s[..|s| - 1] == Text(ds[1..]);
      TextReads(ds[1..]);
    }
  }

  lemma {:induction false} TextShape(ds: seq<int>)
    ensures |Text(ds)| == |ds|
    ensures forall k :: 0 <= k < |ds| ==> Text(ds)[k] == CharOf(ds[|ds| - 1 - k])
  {
    if ds != [] {
      TextShape(ds[1..]);
    }
  }

  /** Without a digit 1 the text reads as zero or less. */
  lemma {:induction false} ReadNonPositive(s: string)
    requires forall k :: 0 <= k < |s| ==> s[k] != '+'
    ensures ReadDigits(s) <= 0
  {
    if s != "" {
      ReadNonPositive(s[..|s| - 1]);
    }
  }

  lemma BalancedEmpty()
    ensures Balanced([])
  {
  }

  lemma BalancedCons(d: int, ds: seq<int>)
    requires Balanced(ds) && -1 <= d <= 1
    ensures Balanced([d] + ds)
  {
  }

  lemma {:induction false} DigitsRead(s: string)
    requires forall k :: 0 <= k < |s| ==> s[k] in "+-0"
    ensures |DigitsOf(s)| == |s| && Balanced(DigitsOf(s)) && ValueOf(DigitsOf(s)) == ReadDigits(s)
    ensures Text(DigitsOf(s)) == s
    ensures s != "" ==> DigitsOf(s)[|s| - 1] == DigitOf(s[0])
  {
    hide Balanced;
    if s == "" {
      BalancedEmpty();
    } else {
      var front := s[..|s| - 1];
      DigitsRead(front);
      BalancedCons(DigitOf(s[|s| - 1]), DigitsOf(front));
      assert DigitsOf(s)[1..] == DigitsOf(front);
      assert s == front + [s[|s| - 1]];
    }
  }

  /** Each value has one canonical text, so distinct texts stand for distinct numbers. */
  lemma CanonicalIsUnique(s: string, t: string)
    requires Canonical(s) && Canonical(t) && Read(s) == Read(t)
    ensures s == t
  {
    SignOfText(s);
    SignOfText(t);
    if Read(s) > 0 {
      BodyIsUnique(s, t);
    } else if Read(s) < 0 {
      BodyIsUnique(s[1..], t[1..]);
      assert s == ['-'] + s[1..] && t == ['-'] + t[1..];
    }
  }

  lemma SignOfText(s: string)
    requires Canonical(s)
    ensures IsBody(s) <==> Read(s) > 0
    ensures s == "0" <==> Read(s) == 0
    ensures Read(s) < 0 ==> s[0] == '-' && IsBody(s[1..])
  {
    if IsBody(s) {
      PositiveBody(s);
    } else if s == "0" {
      ReadZero();
    } else {
      PositiveBody(s[1..]);
      assert s[0] != '+';
    }
  }

  lemma ReadZero()
    ensures Read("0") == 0
  {
    var s := "0";
    assert s[..|s| - 1] == "";
    assert ReadDigits(s) == 3 * ReadDigits("") + DigitOf('0');
  }

  lemma PositiveBody(s: string)
    requires IsBody(s)
    ensures ReadDigits(s) > 0
  {
    DigitsRead(s);
    LeadingDigit(DigitsOf(s));
  }

  lemma BodyIsUnique(s: string, t: string)
    requires IsBody(s) && IsBody(t) && ReadDigits(s) == ReadDigits(t)
    ensures s == t
  {
    DigitsRead(s);
    DigitsRead(t);
    NormalIsUnique(DigitsOf(s), DigitsOf(t));
  }

  // ---- the conversion ----

  /** Fills the digit slots; the slots in use hold the value of `start`, and the last of the 42 is never needed. */
  method FillDigits(start: i64, digits: array<i8>) returns (len: nat)
    requires digits.Length == SLOTS
    modifies digits
    ensures len <= 41 && ValueOf(digits[..len]) == start
    ensures start >= 0 ==> Normal(digits[..len])
    ensures start < 0 ==> NonPositive(digits[..len])
    ensures start != 0 ==> len > 0 && digits[len - 1] != 0
  {
    hide ValueOf, ValueSoFar, Balanced, NonPositive;
    var n: i64 := start;
    len := 0;
    NoDigits(start);
    while n != 0
      invariant len <= 41
      invariant ValueSoFar(digits[..len], n) == start
      invariant start >= 0 ==> n >= 0 && Balanced(digits[..len])
      invariant start >= 0 && n == 0 ==> Normal(digits[..len])
      invariant start < 0 ==> n <= 0 && NonPositive(digits[..len])
      invariant n == 0 && start != 0 ==> len > 0 && digits[len - 1] != 0
      decreases if n >= 0 then n as int else -(n as int)
    {
      ghost var stored := digits[..len];
      SlotFree(stored, n);
      var rem := Remainder(n);
      ghost var before := n;
      n := Third(n);
      if rem == 2 {
        digits[len] := -1;
        n := n + 1;
      } else {
        digits[len] := rem;
      }
      DigitStep(stored, digits[len], before, n);
      DigitKinds(stored, digits[len]);
      assert digits[..len + 1] == stored + [digits[len]];
      len := len + 1;
    }
    AllDigits(digits[..len]);
  }

  lemma NoDigits(n: int)
    ensures ValueSoFar([], n) == n && Balanced([]) && NonPositive([])
  {
  }

  lemma AllDigits(ds: seq<int>)
    ensures ValueSoFar(ds, 0) == ValueOf(ds)
  {
  }

  lemma DigitKinds(ds: seq<int>, d: int)
    ensures Balanced(ds) && -1 <= d <= 1 ==> Balanced(ds + [d])
    ensures NonPositive(ds) && d <= 0 ==> NonPositive(ds + [d])
  {
  }

  lemma Distribute(n: int, d: int, p: int)
    ensures n * (3 * p) + d * p == (3 * n + d) * p
  {
  }

  lemma DigitStep(ds: seq<int>, d: int, before: int, n: int)
    requires before == 3 * n + d
    ensures ValueSoFar(ds + [d], n) == ValueSoFar(ds, before)
  {
    hide ValueOf;
    ValueOfAppend(ds, d);
    Distribute(n, d, Pow3(|ds|));
  }

  /** The text reads back as `m` exactly unless `m` is the lowest 64-bit value, which negation does not change. */
  method ToBalancedTernary(m: i64) returns (out: string)
    ensures Read(out) == m <==> m != LOWEST
    ensures m != LOWEST ==> Canonical(out) && |out| <= 42
  {
    if m == 0 {
      ReadZero();
      return "0";
    }
    var neg := m < 0;
    var n := m;
    if neg {
      n := Negate(n);
    }
    hide ValueOf, Normal, Read, Canonical, NonPositive;
    var digits := new i8[SLOTS](_ => 0);
    var len := FillDigits(n, digits);
    ghost var ds: seq<int> := digits[..len];
    out := "";
    if neg {
      out := out + "-";
    }
    ghost var sign := out;
    TextShape(ds);
    var k := 0;
    while k < len
      invariant 0 <= k <= len && out == sign + Text(ds)[..k]
    {
      var d := digits[len - 1 - k];
      assert Text(ds)[..k + 1] == Text(ds)[..k] + [CharOf(d)];
      out := out + [CharOf(d)];
      k := k + 1;
    }
    assert out == sign + Text(ds);
    TextAnswer(m, n, ds, out);
  }

  /** The digits of the absolute value, with their sign, read back as the number. */
  lemma TextAnswer(m: i64, n: int, ds: seq<int>, out: string)
    requires m != 0 && n == (if m < 0 then Negate(m) else m) && ValueOf(ds) == n && |ds| <= 41
    requires out == (if m < 0 then "-" else "") + Text(ds)
    requires if n >= 0 then Normal(ds) else NonPositive(ds)
    ensures Read(out) == m <==> m != LOWEST
    ensures m != LOWEST ==> Canonical(out) && |out| <= 42
  {
    hide ReadDigits, Text;
    assert m < 0 ==> out[1..] == Text(ds);
    assert m > 0 ==> out == Text(ds);
    assert n != 0;
    TextShape(ds);
    if n > 0 {
      BodyOfPositive(ds);
    } else {
      ReadNonPositive(Text(ds));
    }
  }

  lemma BodyOfPositive(ds: seq<int>)
    requires Normal(ds) && ValueOf(ds) > 0
    ensures IsBody(Text(ds)) && ReadDigits(Text(ds)) == ValueOf(ds)
  {
    hide ReadDigits, Text;
    assert ds != [];
    TextShape(ds);
    TextReads(ds);
    LeadingDigit(ds);
  }
}
