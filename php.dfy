/**
 * The pieces of PHP's runtime behaviour that the special-price resolver leans on:
 * the `(bool)` cast of a nullable SQL flag, the loose `>` between such a flag and a
 * bool, the decimal string form of an integer, `array_unique` and `implode`.
 */
module Php {

  /** A nullable column value of a fetched row: SQL NULL or a value. */
  datatype Option<+T> = None | Some(value: T)

  /** The outcome of a call that may throw. */
  datatype Result<+T, +E> = Success(value: T) | Failure(error: E)

  /**
   * `(bool) $v` for a 0/1 flag that the database may also return as NULL:
   * "0" and NULL cast to false, "1" to true.
   */
  function ToBool(v: Option<bool>): (b: bool)
    ensures b <==> v == Some(true)
  {
    v.Some? && v.value
  }

  /**
   * `$v > $b` where `$b` is a bool: PHP compares a bool with any other value
   * by casting that value to bool, and only true is greater than false.
   */
  function GreaterThanBool(v: Option<bool>, b: bool): (g: bool)
    ensures g ==> !b
    ensures !b ==> (g <==> ToBool(v))
    ensures (b || g) <==> (b || ToBool(v))
  {
    ToBool(v) && !b
  }

  predicate IsDigit(c: char) {
    '0' <= c <= '9'
  }

  function DigitChar(d: nat): (c: char)
    requires d < 10
    ensures IsDigit(c)
  {
    (('0' as int) + d) as char
  }

  /** The decimal string of a natural number, as PHP writes it: no leading zeros. */
  function NatToString(n: nat): (s: string)
    ensures |s| >= 1
    ensures forall i | 0 <= i < |s| :: IsDigit(s[i])
    ensures |s| == 1 <==> n < 10
    decreases n
  {
    if n < 10 then [DigitChar(n)] else NatToString(n / 10) + [DigitChar(n % 10)]
  }

  /** The string PHP produces when an int is concatenated or imploded. */
  function IntToString(i: int): (s: string)
    ensures |s| >= 1
    ensures s[0] == '-' <==> i < 0
  {
    if i < 0 then "-" + NatToString(-i) else NatToString(i)
  }

  /** Distinct naturals have distinct decimal strings. */
  lemma {:induction false} NatToStringInjective(a: nat, b: nat)
    ensures NatToString(a) == NatToString(b) ==> a == b
    decreases a
  {
    if NatToString(a) == NatToString(b) && a >= 10 && b >= 10 {
      var sa, sb := NatToString(a), NatToString(b);
      assert sa[..|sa| - 1] == NatToString(a / 10);
      assert sb[..|sb| - 1] == NatToString(b / 10);
      NatToStringInjective(a / 10, b / 10);
      assert DigitChar(a % 10) == sa[|sa| - 1] == DigitChar(b % 10);
    }
  }

  /** Distinct integers have distinct decimal strings. */
  lemma IntToStringInjective(a: int, b: int)
    ensures IntToString(a) == IntToString(b) ==> a == b
  {
    if IntToString(a) == IntToString(b) {
      if a < 0 && b < 0 {
        assert NatToString(-a) == IntToString(a)[1..] == IntToString(b)[1..] == NatToString(-b);
        NatToStringInjective(-a, -b);
      } else if a >= 0 && b >= 0 {
        NatToStringInjective(a, b);
      }
    }
  }

  predicate NoDuplicates<T(==)>(s: seq<T>) {
    forall i, j | 0 <= i < j < |s| :: s[i] != s[j]
  }

  /**
   * `array_unique` followed by iteration: the elements of `s` without repeats,
   * each kept where it first occurs.
   */
  function Distinct<T(==,!new)>(s: seq<T>): (r: seq<T>)
    ensures forall x :: x in r <==> x in s
    ensures NoDuplicates(r)
    ensures |r| <= |s|
  {
    if s == [] then []
    else
      var d, x := Distinct(s[..|s| - 1]), s[|s| - 1];
      assert forall y :: y in s <==> y in s[..|s| - 1] || y == x by {
        assert s == s[..|s| - 1] + [x];
      }
      if x in d then d else d + [x]
  }

  /** One more element is kept at the end exactly when it is new. */
  lemma DistinctAppend<T(!new)>(s: seq<T>, x: T)
    ensures Distinct(s + [x]) == if x in Distinct(s) then Distinct(s) else Distinct(s) + [x]
  {
    assert (s + [x])[..|s|] == s;
  }

  /** The position at which `x` first occurs in `s`. */
  function FirstIndex<T(==)>(s: seq<T>, x: T): (k: nat)
    requires x in s
    ensures k < |s| && s[k] == x && x !in s[..k]
  {
    if s[0] == x then 0 else 1 + FirstIndex(s[1..], x)
  }

  /** `FirstIndex` is the only position holding `x` with no `x` before it. */
  lemma FirstIndexUnique<T>(s: seq<T>, x: T, k: nat)
    requires k < |s| && s[k] == x
    requires forall i | 0 <= i < k :: s[i] != x
    ensures FirstIndex(s, x) == k
  {
    var f := FirstIndex(s, x);
    assert forall i | 0 <= i < f :: s[i] != x by {
      forall i | 0 <= i < f ensures s[i] != x {
        assert s[..f][i] == s[i];
      }
    }
  }

  lemma FirstIndexOfPrefix<T>(s: seq<T>, n: nat, x: T)
    requires n <= |s| && x in s[..n]
    ensures FirstIndex(s, x) == FirstIndex(s[..n], x)
  {
    var k := FirstIndex(s[..n], x);
    forall i | 0 <= i < k ensures s[i] != x {
      assert s[..n][..k][i] == s[i];
    }
    FirstIndexUnique(s, x, k);
  }

  /** `Distinct` lists the elements of `s` in the order of their first occurrences. */
  lemma {:induction false} DistinctKeepsFirstOccurrenceOrder<T(!new)>(s: seq<T>)
    ensures forall i, j | 0 <= i < j < |Distinct(s)| ::
      FirstIndex(s, Distinct(s)[i]) < FirstIndex(s, Distinct(s)[j])
  {
    if s != [] {
      var init, x := s[..|s| - 1], s[|s| - 1];
      var d := Distinct(init);
      DistinctKeepsFirstOccurrenceOrder(init);
      assert s[..|s| - 1] == init;
      forall y | y in d
        ensures FirstIndex(s, y) == FirstIndex(init, y)
      {
        FirstIndexOfPrefix(s, |s| - 1, y);
      }
      if x !in d {
        forall i | 0 <= i < |s| - 1 ensures s[i] != x {
          assert init[i] == s[i];
        }
        FirstIndexUnique(s, x, |s| - 1);
      }
    }
  }

  /**
   * `implode($glue, $pieces)`: the pieces joined by the glue. The result begins
   * with the first piece and ends with the last.
   */
  function Implode(glue: string, pieces: seq<string>): (r: string)
    ensures pieces != [] ==> |pieces[0]| <= |r| && r[..|pieces[0]|] == pieces[0]
    ensures pieces != [] ==> |pieces[|pieces| - 1]| <= |r| && r[|r| - |pieces[|pieces| - 1]|..] == pieces[|pieces| - 1]
  {
    if pieces == [] then ""
    else if |pieces| == 1 then pieces[0]
    else Implode(glue, pieces[..|pieces| - 1]) + glue + pieces[|pieces| - 1]
  }
}
