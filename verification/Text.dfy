/** Text handling of the Go programs: decimal numbers and splitting at a separator. */
module Text {
  predicate IsDigit(c: char) {
    '0' <= c <= '9'
  }

  predicate AllDigits(s: string) {
    forall i :: 0 <= i < |s| ==> IsDigit(s[i])
  }

  /** \d+ */
  predicate IsDigits(s: string) {
    s != [] && AllDigits(s)
  }

  function DigitValue(c: char): nat
    requires IsDigit(c)
  {
    c as int - '0' as int
  }

  function Number(s: string): nat
    requires AllDigits(s)
  {
    if s == [] then 0 else Number(s[..|s| - 1]) * 10 + DigitValue(s[|s| - 1])
  }

  const MAX_INT: nat := 0x7fff_ffff_ffff_ffff

  /** strconv.Atoi of a digit string, its error ignored: too large numbers become MaxInt64. */
  function Atoi(s: string): nat
    requires AllDigits(s)
  {
    if Number(s) <= MAX_INT then Number(s) else MAX_INT
  }

  function Decimal(n: nat): (s: string)
    ensures IsDigits(s)
  {
    var last := [('0' as int + n % 10) as char];
    if n < 10 then last else Decimal(n / 10) + last
  }

  lemma {:induction false} NumberOfDecimal(n: nat)
    ensures Number(Decimal(n)) == n
  {
    if n < 10 {
      assert Decimal(n)[..0] == [];
    } else {
      NumberOfDecimal(n / 10);
      assert Decimal(n)[..|Decimal(n)| - 1] == Decimal(n / 10);
    }
  }

  function Pow10(n: nat): nat {
    if n == 0 then 1 else 10 * Pow10(n - 1)
  }

  /** Digits count by their place: those in front of n others are worth 10^n times as much. */
  lemma {:induction false} NumberByPlace(a: string, b: string)
    requires AllDigits(a) && AllDigits(b)
    ensures Number(a + b) == Number(a) * Pow10(|b|) + Number(b)
  {
    if b == [] {
      assert a + b == a;
    } else {
      var front := b[..|b| - 1];
      NumberByPlace(a, front);
      assert (a + b)[..|a + b| - 1] == a + front;
      assert Number(a) * Pow10(|b|) == Number(a) * Pow10(|front|) * 10 by { MulTen(Number(a), Pow10(|front|)); }
    }
  }

  lemma MulTen(x: nat, p: nat)
    ensures x * (10 * p) == x * p * 10
  {
  }

  /** A single digit is its distance from the character 0. */
  lemma {:induction false} OneDigit(c: char)
    requires '0' <= c <= '9'
    ensures Number([c]) == c as int - 48
  {
    assert [c][..0] == [];
  }

  /** Position of the first c, or the length. */
  function IndexOf(s: string, c: char): (n: nat)
    ensures n <= |s| && c !in s[..n] && (n < |s| ==> s[n] == c)
  {
    if s == [] || s[0] == c then 0
    else
      var n := 1 + IndexOf(s[1..], c);
      assert s[..n] == [s[0]] + s[1..][..n - 1];
      n
  }

  /** strings.Split at a one-character separator. */
  function Split(s: string, c: char): (parts: seq<string>)
    ensures |parts| >= 1
  {
    var n := IndexOf(s, c);
    if n == |s| then [s] else [s[..n]] + Split(s[n + 1..], c)
  }

  /** strings.Join of a list that is not empty. */
  function JoinWith(parts: seq<string>, c: char): string
    requires |parts| >= 1
  {
    if |parts| == 1 then parts[0] else parts[0] + [c] + JoinWith(parts[1..], c)
  }

  lemma {:induction false} IndexOfFirst(a: string, c: char, rest: string)
    requires c !in a && (rest == [] || rest[0] == c)
    ensures IndexOf(a + rest, c) == |a|
  {
    if a == [] {
      assert a + rest == rest;
    } else {
      IndexOfFirst(a[1..], c, rest);
      assert (a + rest)[1..] == a[1..] + rest;
      assert a[0] in a;
    }
  }

  lemma {:induction false} SplitFirst(a: string, c: char, rest: string)
    requires c !in a
    ensures Split(a + [c] + rest, c) == [a] + Split(rest, c)
    ensures Split(a, c) == [a]
  {
    var s := a + [c] + rest;
    IndexOfFirst(a, c, [c] + rest);
    IndexOfFirst(a, c, []);
    assert s == a + ([c] + rest) && a == a + [];
    assert s[..|a|] == a && s[|a| + 1..] == rest;
  }

  lemma JoinFirst(parts: seq<string>, c: char)
    requires |parts| > 1
    ensures JoinWith(parts, c) == parts[0] + [c] + JoinWith(parts[1..], c)
  {
  }

  /** Splitting undoes joining parts without the separator. */
  lemma {:induction false} SplitOfJoin(parts: seq<string>, c: char)
    requires |parts| >= 1 && forall i :: 0 <= i < |parts| ==> c !in parts[i]
    ensures Split(JoinWith(parts, c), c) == parts
  {
    if |parts| == 1 {
      SplitFirst(parts[0], c, []);
    } else {
      var rest := parts[1..];
      assert forall i :: 0 <= i < |rest| ==> rest[i] == parts[i + 1];
      SplitOfJoin(rest, c);
      JoinFirst(parts, c);
      SplitFirst(parts[0], c, JoinWith(rest, c));
      assert parts == [parts[0]] + rest;
    }
  }

  lemma JoinCons(head: string, tail: seq<string>, c: char)
    requires |tail| >= 1
    ensures JoinWith([head] + tail, c) == head + [c] + JoinWith(tail, c)
  {
    assert ([head] + tail)[1..] == tail;
  }

  lemma SplitStep(s: string, c: char, n: nat)
    requires n == IndexOf(s, c) < |s|
    ensures Split(s, c) == [s[..n]] + Split(s[n + 1..], c)
  {
  }

  lemma {:induction false} JoinOfSplit(s: string, c: char)
    ensures JoinWith(Split(s, c), c) == s
  {
    var n := IndexOf(s, c);
    if n < |s| {
      var rest := s[n + 1..];
      JoinOfSplit(rest, c);
      SplitStep(s, c, n);
      JoinCons(s[..n], Split(rest, c), c);
      assert s == s[..n] + [c] + rest;
    }
  }

  lemma {:induction false} SplitParts(s: string, c: char)
    ensures forall i :: 0 <= i < |Split(s, c)| ==> c !in Split(s, c)[i]
  {
    var n := IndexOf(s, c);
    if n < |s| {
      SplitParts(s[n + 1..], c);
    } else {
      assert s[..n] == s;
    }
  }

  lemma DigitsHaveNoOther(s: string, c: char)
    requires AllDigits(s) && !IsDigit(c)
    ensures c !in s
  {
  }

  /** Every part followed by a comma. */
  function Terminated(parts: seq<string>): string {
    if parts == [] then "" else parts[0] + "," + Terminated(parts[1..])
  }

  lemma {:induction false} TerminatedJoin(parts: seq<string>)
    ensures JoinWith(parts + [""], ',') == Terminated(parts)
    ensures parts != [] ==> JoinWith(parts, ',') + "," == Terminated(parts)
  {
    if parts == [] {
      assert JoinWith([""], ',') == "";
    } else {
      assert (parts + [""])[1..] == parts[1..] + [""];
      TerminatedJoin(parts[1..]);
      if |parts| == 1 {
        assert Terminated(parts) == parts[0] + "," + Terminated([]);
      } else {
        assert parts[0] + "," + JoinWith(parts[1..], ',') + "," == parts[0] + "," + (JoinWith(parts[1..], ',') + ",");
      }
    }
  }

  lemma {:induction false} TerminatedAppend(parts: seq<string>, p: string)
    ensures Terminated(parts + [p]) == Terminated(parts) + p + ","
  {
    if parts == [] {
      assert Terminated([p]) == p + "," + Terminated([]);
    } else {
      TerminatedAppend(parts[1..], p);
      assert (parts + [p])[1..] == parts[1..] + [p];
      assert parts[0] + "," + (Terminated(parts[1..]) + p + ",") == parts[0] + "," + Terminated(parts[1..]) + p + ",";
    }
  }
}
