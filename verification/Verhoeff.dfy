/** The Verhoeff check digit over the dihedral group of the pentagon (matter/verhoeff.py). */
module Verhoeff {
  import opened Wrappers

  type digit = d: int | 0 <= d < 10

  const MULTIPLICATION: seq<seq<digit>> := [
    [0, 1, 2, 3, 4, 5, 6, 7, 8, 9],
    [1, 2, 3, 4, 0, 6, 7, 8, 9, 5],
    [2, 3, 4, 0, 1, 7, 8, 9, 5, 6],
    [3, 4, 0, 1, 2, 8, 9, 5, 6, 7],
    [4, 0, 1, 2, 3, 9, 5, 6, 7, 8],
    [5, 9, 8, 7, 6, 0, 4, 3, 2, 1],
    [6, 5, 9, 8, 7, 1, 0, 4, 3, 2],
    [7, 6, 5, 9, 8, 2, 1, 0, 4, 3],
    [8, 7, 6, 5, 9, 3, 2, 1, 0, 4],
    [9, 8, 7, 6, 5, 4, 3, 2, 1, 0]]

  const PERMUTATION: seq<seq<digit>> := [
    [0, 1, 2, 3, 4, 5, 6, 7, 8, 9],
    [1, 5, 7, 6, 2, 8, 3, 0, 9, 4],
    [5, 8, 0, 3, 7, 9, 6, 1, 4, 2],
    [8, 9, 1, 6, 0, 4, 3, 5, 2, 7],
    [9, 4, 5, 3, 1, 2, 6, 8, 7, 0],
    [4, 2, 8, 6, 5, 7, 3, 9, 0, 1],
    [2, 7, 9, 3, 8, 0, 6, 4, 1, 5],
    [7, 0, 4, 6, 9, 1, 3, 2, 5, 8]]

  function Mul(a: digit, b: digit): digit {
    MULTIPLICATION[a][b]
  }

  function Perm(i: nat, n: digit): digit {
    PERMUTATION[i % 8][n]
  }

  // ---------------------------------------------------------------------- what the tables are

  function Mod5(x: int): (r: int)
    requires -5 < x < 10
    ensures 0 <= r < 5 && r == x % 5
  {
    if x < 0 then x + 5 else if x < 5 then x else x - 5
  }

  /** Rotations 0 to 4 and reflections 5 to 9 of the pentagon, composed. */
  function Compose(a: digit, b: digit): digit {
    if a < 5 then (if b < 5 then Mod5(a + b) else 5 + Mod5(a + b - 5))
    else if b < 5 then 5 + Mod5(a - 5 - b) else Mod5(a - b)
  }

  lemma TableRow(a: digit, b: digit)
    ensures Mul(a, b) == Compose(a, b)
  {
    if a == 0 { assert MULTIPLICATION[0][b] == Compose(0, b); }
    else if a == 1 { assert MULTIPLICATION[1][b] == Compose(1, b); }
    else if a == 2 { assert MULTIPLICATION[2][b] == Compose(2, b); }
    else if a == 3 { assert MULTIPLICATION[3][b] == Compose(3, b); }
    else if a == 4 { assert MULTIPLICATION[4][b] == Compose(4, b); }
    else if a == 5 { assert MULTIPLICATION[5][b] == Compose(5, b); }
    else if a == 6 { assert MULTIPLICATION[6][b] == Compose(6, b); }
    else if a == 7 { assert MULTIPLICATION[7][b] == Compose(7, b); }
    else if a == 8 { assert MULTIPLICATION[8][b] == Compose(8, b); }
    else { assert MULTIPLICATION[9][b] == Compose(9, b); }
  }

  lemma Associative(a: digit, b: digit, c: digit)
    ensures Mul(Mul(a, b), c) == Mul(a, Mul(b, c))
  {
    TableRow(a, b);
    TableRow(b, c);
    TableRow(Mul(a, b), c);
    TableRow(a, Mul(b, c));
    ComposeAssociative(a, b, c);
    hide Mul, Compose;
  }

  lemma ComposeAssociative(a: digit, b: digit, c: digit)
    ensures Compose(Compose(a, b), c) == Compose(a, Compose(b, c))
  {
    if a < 5 { RotationAssociates(a, b, c); } else { ReflectionAssociates(a, b, c); }
    hide Compose;
  }

  lemma RotationAssociates(a: digit, b: digit, c: digit)
    requires a < 5
    ensures Compose(Compose(a, b), c) == Compose(a, Compose(b, c))
  {
  }

  lemma ReflectionAssociates(a: digit, b: digit, c: digit)
    requires a >= 5
    ensures Compose(Compose(a, b), c) == Compose(a, Compose(b, c))
  {
  }

  lemma Cancel(a: digit, b: digit, c: digit)
    ensures Mul(c, a) == Mul(c, b) ==> a == b
    ensures Mul(a, c) == Mul(b, c) ==> a == b
  {
    TableRow(c, a);
    TableRow(c, b);
    TableRow(a, c);
    TableRow(b, c);
    hide Mul;
  }

  lemma Identity(a: digit)
    ensures Mul(0, a) == a && Mul(a, 0) == a
  {
    TableRow(0, a);
    TableRow(a, 0);
  }

  lemma LowRows(k: nat, n: digit)
    requires k < 4
    ensures PERMUTATION[(k + 1) % 8][n] == PERMUTATION[1][PERMUTATION[k][n]]
  {
    if k == 0 { assert PERMUTATION[1][n] == PERMUTATION[1][PERMUTATION[0][n]]; }
    else if k == 1 { assert PERMUTATION[2][n] == PERMUTATION[1][PERMUTATION[1][n]]; }
    else if k == 2 { assert PERMUTATION[3][n] == PERMUTATION[1][PERMUTATION[2][n]]; }
    else { assert PERMUTATION[4][n] == PERMUTATION[1][PERMUTATION[3][n]]; }
  }

  lemma HighRows(k: nat, n: digit)
    requires 4 <= k < 8
    ensures PERMUTATION[(k + 1) % 8][n] == PERMUTATION[1][PERMUTATION[k][n]]
  {
    if k == 4 { assert PERMUTATION[5][n] == PERMUTATION[1][PERMUTATION[4][n]]; }
    else if k == 5 { assert PERMUTATION[6][n] == PERMUTATION[1][PERMUTATION[5][n]]; }
    else if k == 6 { assert PERMUTATION[7][n] == PERMUTATION[1][PERMUTATION[6][n]]; }
    else { assert PERMUTATION[0][n] == PERMUTATION[1][PERMUTATION[7][n]]; }
  }

  lemma NextRow(i: nat)
    ensures (i + 1) % 8 == (i % 8 + 1) % 8
  {
  }

  /** Each row of the permutation table applies row 1 once more than the row before; row 8 would be row 0. */
  lemma PermPower(i: nat, n: digit)
    ensures Perm(i + 1, n) == Perm(1, Perm(i, n))
  {
    NextRow(i);
    if i % 8 < 4 { LowRows(i % 8, n); } else { HighRows(i % 8, n); }
  }

  lemma {:induction false} PermInjective(i: nat, a: digit, b: digit)
    requires Perm(i, a) == Perm(i, b)
    ensures a == b
  {
    hide *;
    if i == 0 {
      Perm0(a);
      Perm0(b);
    } else {
      PermPower(i - 1, a);
      PermPower(i - 1, b);
      Perm1Injective(Perm(i - 1, a), Perm(i - 1, b));
      PermInjective(i - 1, a, b);
    }
  }

  lemma Perm0(a: digit)
    ensures Perm(0, a) == a
  {
  }

  lemma Perm1Injective(a: digit, b: digit)
    requires Perm(1, a) == Perm(1, b)
    ensures a == b
  {
  }

  /** No two different digits commute past the permutation. */
  lemma AntiSymmetric(a: digit, b: digit)
    requires a != b
    ensures Mul(a, Perm(1, b)) != Mul(b, Perm(1, a))
  {
    TableRow(a, Perm(1, b));
    TableRow(b, Perm(1, a));
    ShuffleOf(a);
    ShuffleOf(b);
    hide Mul, Perm;
  }

  lemma ShuffleOf(a: digit)
    ensures Perm(1, a) == if a == 0 then 1 else if a == 1 then 5 else if a == 2 then 7 else if a == 3 then 6
                          else if a == 4 then 2 else if a == 5 then 8 else if a == 6 then 3 else if a == 7 then 0
                          else if a == 8 then 9 else 4
  {
  }

  // ---------------------------------------------------------------------- checksum

  predicate IsDigit(c: char) {
    '0' <= c <= '9'
  }

  predicate AllDigits(s: string) {
    forall i | 0 <= i < |s| :: IsDigit(s[i])
  }

  function Value(c: char): digit
    requires IsDigit(c)
  {
    c as int - '0' as int
  }

  function DigitChar(d: digit): (c: char)
    ensures IsDigit(c) && Value(c) == d
  {
    "0123456789"[d]
  }

  /** Digits are taken from the right; i counts those already taken. */
  function Fold(s: string, i: nat, check: digit): digit
    requires AllDigits(s)
  {
    if s == "" then check else Fold(s[..|s| - 1], i + 1, Mul(check, Perm(i, Value(s[|s| - 1]))))
  }

  predicate Valid(s: string) {
    s != "" && AllDigits(s) && Fold(s, 0, 0) == 0
  }

  method Checksum(number: string) returns (r: Result<digit>)
    ensures r == if AllDigits(number) then Success(Fold(number, 0, 0)) else Failure(ValueError)
  {
    var check: digit := 0;
    var i := 0;
    assert number[..|number|] == number;
    while i < |number|
      invariant 0 <= i <= |number|
      invariant forall j | |number| - i <= j < |number| :: IsDigit(number[j])
      invariant AllDigits(number) ==> Fold(number, 0, 0) == Fold(number[..|number| - i], i, check)
    {
      hide Mul, Perm, Value;
      var c := number[|number| - 1 - i];
      if !IsDigit(c) {
        return Failure(ValueError);
      }
      ghost var rest := number[..|number| - i];
      assert rest[..|rest| - 1] == number[..|number| - (i + 1)];
      check := Mul(check, Perm(i, Value(c)));
      i := i + 1;
    }
    r := Success(check);
  }

  method Validate(number: string) returns (valid: bool)
    ensures valid == Valid(number)
  {
    if number == "" {
      return false;
    }
    var c := Checksum(number);
    return c.Success? && c.value == 0;
  }

  /** The first digit d with Mul(c, d) == 0. */
  method IndexOfZero(c: digit) returns (d: digit)
    ensures Mul(c, d) == 0
  {
    ghost var inverse: digit := if c < 5 then (5 - c) % 5 else c;
    TableRow(c, inverse);
    d := 0;
    while MULTIPLICATION[c][d] != 0
      invariant d <= inverse
      decreases 10 - d
    {
      d := d + 1;
    }
  }

  method CalcCheckDigit(number: string) returns (r: Result<string>)
    ensures r.Success? <==> AllDigits(number)
    ensures r.Success? ==> |r.value| == 1 && forall c :: Valid(number + [c]) <==> [c] == r.value
  {
    var check :- Checksum(number + ['0']);
    var d := IndexOfZero(check);
    assert AllDigits(number) by {
      forall i | 0 <= i < |number| ensures IsDigit(number[i]) {
        assert (number + ['0'])[i] == number[i];
      }
    }
    CheckDigitUnique(number, d);
    r := Success([DigitChar(d)]);
  }

  // ---------------------------------------------------------------------- laws

  lemma {:induction false} FoldFrom(s: string, i: nat, a: digit, b: digit)
    requires AllDigits(s)
    ensures Fold(s, i, Mul(a, b)) == Mul(a, Fold(s, i, b))
    decreases |s|
  {
    hide Mul, Perm;
    if s != "" {
      var p := Perm(i, Value(s[|s| - 1]));
      Associative(a, b, p);
      FoldFrom(s[..|s| - 1], i + 1, a, Mul(b, p));
    }
  }

  lemma {:induction false} FoldInjective(s: string, i: nat, a: digit, b: digit)
    requires AllDigits(s) && Fold(s, i, a) == Fold(s, i, b)
    ensures a == b
    decreases |s|
  {
    hide Mul, Perm;
    if s != "" {
      var p := Perm(i, Value(s[|s| - 1]));
      FoldInjective(s[..|s| - 1], i + 1, Mul(a, p), Mul(b, p));
      Cancel(a, b, p);
    }
  }

  lemma FoldAppended(s: string, c: char)
    requires AllDigits(s) && IsDigit(c)
    ensures AllDigits(s + [c]) && Fold(s + [c], 0, 0) == Mul(Value(c), Fold(s, 1, 0))
  {
    assert (s + [c])[..|s|] == s;
    assert Perm(0, Value(c)) == Value(c);
    Identity(Value(c));
    FoldFrom(s, 1, Value(c), 0);
    hide Mul;
  }

  /** The one digit that makes the number valid. */
  lemma CheckDigitUnique(s: string, d: digit)
    requires AllDigits(s) && Mul(Fold(s + ['0'], 0, 0), d) == 0
    ensures forall c :: Valid(s + [c]) <==> c == DigitChar(d)
  {
    hide Fold;
    var f := Fold(s, 1, 0);
    FoldAppended(s, '0');
    Identity(f);
    Commutes(f, d);
    hide Mul, DigitChar;
    forall c ensures Valid(s + [c]) <==> c == DigitChar(d) {
      assert (s + [c])[|s|] == c;
      if IsDigit(c) {
        FoldAppended(s, c);
        Cancel(Value(c), d, f);
      }
    }
  }

  lemma Commutes(a: digit, b: digit)
    requires Mul(a, b) == 0
    ensures Mul(b, a) == 0
  {
    TableRow(a, b);
    TableRow(b, a);
    hide Mul;
  }

  lemma {:induction false} ChangeFolds(s: string, k: nat, c: char, i: nat, t: digit)
    requires AllDigits(s) && k < |s| && IsDigit(c) && c != s[k]
    ensures AllDigits(s[k := c]) && Fold(s[k := c], i, t) != Fold(s, i, t)
    decreases |s|
  {
    hide Mul, Perm;
    var u := s[k := c];
    var last := |s| - 1;
    var a, b := Perm(i, Value(s[last])), Perm(i, Value(u[last]));
    if k == last {
      assert u[..last] == s[..last];
      if a == b { PermInjective(i, Value(s[last]), Value(c)); }
      Cancel(a, b, t);
      if Fold(s, i, t) == Fold(u, i, t) { FoldInjective(s[..last], i + 1, Mul(t, a), Mul(t, b)); }
    } else {
      assert u[..last] == s[..last][k := c];
      ChangeFolds(s[..last], k, c, i + 1, Mul(t, a));
    }
  }

  /** Changing one digit of a valid number, of any length, makes it invalid. */
  lemma SingleChangeDetected(s: string, k: nat, c: char)
    requires Valid(s) && k < |s| && c != s[k]
    ensures !Valid(s[k := c])
  {
    if IsDigit(c) { ChangeFolds(s, k, c, 0, 0); } else { assert s[k := c][k] == c; }
  }

  function Swap(s: string, k: nat): string
    requires k + 1 < |s|
  {
    s[k := s[k + 1]][k + 1 := s[k]]
  }

  lemma SwapStep(i: nat, x: digit, y: digit, t: digit)
    requires x != y
    ensures Mul(Mul(t, Perm(i, x)), Perm(i + 1, y)) != Mul(Mul(t, Perm(i, y)), Perm(i + 1, x))
  {
    hide Mul, Perm;
    var a, b := Perm(i, x), Perm(i, y);
    if a == b { PermInjective(i, x, y); }
    PermPower(i, x);
    PermPower(i, y);
    AntiSymmetric(a, b);
    Associative(t, a, Perm(1, b));
    Associative(t, b, Perm(1, a));
    Cancel(Mul(a, Perm(1, b)), Mul(b, Perm(1, a)), t);
  }

  lemma {:induction false} SwapFolds(s: string, k: nat, i: nat, t: digit)
    requires AllDigits(s) && k + 1 < |s| && s[k] != s[k + 1]
    ensures AllDigits(Swap(s, k)) && Fold(Swap(s, k), i, t) != Fold(s, i, t)
    decreases |s|
  {
    hide Mul, Perm;
    var u := Swap(s, k);
    var last := |s| - 1;
    if k + 1 == last {
      var x, y := Value(s[last]), Value(s[k]);
      assert u[..last][..k] == s[..last][..k];
      SwapStep(i, x, y, t);
      var f, g := Mul(Mul(t, Perm(i, x)), Perm(i + 1, y)), Mul(Mul(t, Perm(i, y)), Perm(i + 1, x));
      assert Fold(s, i, t) == Fold(s[..last][..k], i + 2, f);
      assert Fold(u, i, t) == Fold(s[..last][..k], i + 2, g);
      if Fold(s, i, t) == Fold(u, i, t) { FoldInjective(s[..last][..k], i + 2, f, g); }
    } else {
      assert u[..last] == Swap(s[..last], k);
      SwapFolds(s[..last], k, i + 1, Mul(t, Perm(i, Value(s[last]))));
    }
  }

  /** Swapping two different neighbouring digits of a valid number, of any length, makes it invalid. */
  lemma AdjacentSwapDetected(s: string, k: nat)
    requires Valid(s) && k + 1 < |s| && s[k] != s[k + 1]
    ensures !Valid(Swap(s, k))
  {
    SwapFolds(s, k, 0, 0);
  }
}
