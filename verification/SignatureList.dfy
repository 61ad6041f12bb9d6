/** Signature lists of the Go programs (decode/mdSignatureList/mdSignatureList.go): the two
    list grammars, the in-place deduplication and the block sizes. */
module SignatureList {
  import opened Dedup
  import opened Sums
  import opened Text

  datatype Signature = Signature(name: string, blocksize: nat)

  // ---------- ascending lists ----------

  ghost predicate Ascending(s: seq<int>) {
    forall i, j :: 0 <= i < j < |s| ==> s[i] <= s[j]
  }

  ghost predicate StrictlyAscending(s: seq<int>) {
    forall i, j :: 0 <= i < j < |s| ==> s[i] < s[j]
  }

  lemma AppendStrict(s: seq<int>, x: int)
    requires StrictlyAscending(s) && forall y :: y in s ==> y < x
    ensures StrictlyAscending(s + [x])
  {
    forall i | 0 <= i < |s|
      ensures s[i] < x
    {
      assert s[i] in s;
    }
  }

  lemma AppendAscending(s: seq<int>, x: int)
    requires Ascending(s) && forall y :: y in s ==> y <= x
    ensures Ascending(s + [x])
  {
    forall i | 0 <= i < |s|
      ensures s[i] <= x
    {
      assert s[i] in s;
    }
  }

  lemma LastIsGreatest(s: seq<int>, y: int)
    requires Ascending(s) && y in s
    ensures y <= s[|s| - 1]
  {
  }

  lemma StrictIsAscending(s: seq<int>)
    requires StrictlyAscending(s)
    ensures Ascending(s)
  {
  }

  // ---------- what a list denotes ----------

  /** \d+(\-\d+)? */
  predicate IsItem(t: string) {
    IsDigits(t) || IsRange(t)
  }

  predicate IsRange(t: string) {
    var n := IndexOf(t, '-');
    n < |t| && IsDigits(t[..n]) && IsDigits(t[n + 1..])
  }

  /** ^(\d+(\-\d+)?[,])+$ */
  predicate MatchesCsv(s: string) {
    var n := IndexOf(s, ',');
    n < |s| && IsItem(s[..n]) && (n + 1 == |s| || MatchesCsv(s[n + 1..]))
  }

  /** strings.Replace of the first ",," by ",". */
  function DropFirstDoubleComma(s: string): string {
    if |s| < 2 then s
    else if s[0] == ',' && s[1] == ',' then s[1..]
    else [s[0]] + DropFirstDoubleComma(s[1..])
  }

  function Normalised(hashlist: string): string {
    DropFirstDoubleComma(hashlist + ",")
  }

  /** The list numbers signatures from 1; 0 is taken for 1. A range is shifted like a number
      unless it starts at 0. */
  predicate ItemDenotes(t: string, i: int) {
    if IsDigits(t) then i == if Number(t) > 0 then Number(t) - 1 else 0
    else
      && IsRange(t)
      && var n := IndexOf(t, '-');
         var lo, hi := Number(t[..n]), Number(t[n + 1..]);
         if lo > 0 then lo - 1 <= i <= hi - 1 else 0 <= i <= hi
  }

  predicate Denoted(items: seq<string>, i: int) {
    exists k :: 0 <= k < |items| && ItemDenotes(items[k], i)
  }

  /** The denoted numbers below size, ascending. */
  function Selected(items: seq<string>, size: nat): seq<int> {
    if size == 0 then []
    else if Denoted(items, size - 1) then Selected(items, size - 1) + [size - 1]
    else Selected(items, size - 1)
  }

  predicate InRange(indices: seq<int>, size: nat) {
    forall k :: 0 <= k < |indices| ==> 0 <= indices[k] < size
  }

  function Names(hlist: seq<Signature>, indices: seq<int>): seq<string>
    requires InRange(indices, |hlist|)
  {
    if indices == [] then []
    else Names(hlist, indices[..|indices| - 1]) + [hlist[indices[|indices| - 1]].name]
  }

  lemma {:induction false} SelectedIsAscending(items: seq<string>, size: nat)
    ensures StrictlyAscending(Selected(items, size))
    ensures forall i :: i in Selected(items, size) <==> 0 <= i < size && Denoted(items, i)
  {
    if size != 0 {
      SelectedIsAscending(items, size - 1);
      AppendStrict(Selected(items, size - 1), size - 1);
    }
  }

  lemma SelectedInRange(items: seq<string>, size: nat)
    ensures InRange(Selected(items, size), size)
  {
    SelectedIsAscending(items, size);
    forall k | 0 <= k < |Selected(items, size)|
      ensures 0 <= Selected(items, size)[k] < size
    {
      assert Selected(items, size)[k] in Selected(items, size);
    }
  }

  /** The names for a list in the comma grammar. */
  function CsvNames(hlist: seq<Signature>, hashlist: string): seq<string> {
    var items := Split(Normalised(hashlist), ',');
    SelectedInRange(items, |hlist|);
    Names(hlist, Selected(items, |hlist|))
  }

  // ---------- sorting, deduplicating, filtering ----------

  /** sort.Ints */
  function Sorted(s: seq<int>): seq<int> {
    if s == [] then [] else Insert(Sorted(s[..|s| - 1]), s[|s| - 1])
  }

  function Insert(s: seq<int>, x: int): seq<int> {
    if s == [] || s[|s| - 1] <= x then s + [x] else Insert(s[..|s| - 1], x) + [s[|s| - 1]]
  }

  lemma {:induction false} InsertKeepsOrder(s: seq<int>, x: int)
    requires Ascending(s)
    ensures Ascending(Insert(s, x))
    ensures forall y :: y in Insert(s, x) <==> y in s || y == x
  {
    if s != [] && x < s[|s| - 1] {
      var front, last := s[..|s| - 1], s[|s| - 1];
      InsertKeepsOrder(front, x);
      assert s == front + [last];
      AppendAscending(Insert(front, x), last);
    } else {
      forall y | y in s
        ensures y <= x
      {
        LastIsGreatest(s, y);
      }
      AppendAscending(s, x);
    }
  }

  lemma {:induction false} SortedIsAscending(s: seq<int>)
    ensures Ascending(Sorted(s))
    ensures forall y :: y in Sorted(s) <==> y in s
  {
    if s != [] {
      SortedIsAscending(s[..|s| - 1]);
      InsertKeepsOrder(Sorted(s[..|s| - 1]), s[|s| - 1]);
      assert s == s[..|s| - 1] + [s[|s| - 1]];
    }
  }

  lemma {:induction false} DedupedIsStrict(s: seq<int>, k: nat)
    requires Ascending(s) && k <= |s|
    ensures StrictlyAscending(FirstOccurrences(s, k))
    ensures forall x :: x in FirstOccurrences(s, k) <==> x in s[..k]
  {
    FirstOccurrencesProperties(s, k);
    if k != 0 {
      DedupedIsStrict(s, k - 1);
      var front := FirstOccurrences(s, k - 1);
      if s[k - 1] !in front {
        forall y | y in front
          ensures y < s[k - 1]
        {
          assert y in s[..k - 1];
        }
        AppendStrict(front, s[k - 1]);
      }
    }
  }

  /** The elements below size among the first k. */
  function Below(s: seq<int>, size: nat, k: nat): seq<int>
    requires k <= |s|
  {
    if k == 0 then []
    else if s[k - 1] < size then Below(s, size, k - 1) + [s[k - 1]]
    else Below(s, size, k - 1)
  }

  lemma {:induction false} BelowKeepsOrder(s: seq<int>, size: nat, k: nat)
    requires StrictlyAscending(s) && k <= |s|
    ensures StrictlyAscending(Below(s, size, k))
    ensures forall x :: x in Below(s, size, k) <==> x in s[..k] && x < size
  {
    if k != 0 {
      BelowKeepsOrder(s, size, k - 1);
      assert s[..k] == s[..k - 1] + [s[k - 1]];
      AppendStrict(Below(s, size, k - 1), s[k - 1]);
    }
  }

  lemma FrontOf(s: seq<int>, z: int)
    requires StrictlyAscending(s) && s != []
    ensures z in s[..|s| - 1] <==> z in s && z != s[|s| - 1]
  {
    assert s == s[..|s| - 1] + [s[|s| - 1]];
  }

  /** A strictly ascending list is determined by its elements. */
  lemma {:induction false} SameAscending(a: seq<int>, b: seq<int>)
    requires StrictlyAscending(a) && StrictlyAscending(b)
    requires forall x :: x in a <==> x in b
    ensures a == b
  {
    assert a != [] ==> a[0] in a;
    assert b != [] ==> b[0] in b;
    if a != [] && b != [] {
      var a', b' := a[..|a| - 1], b[..|b| - 1];
      var x, y := a[|a| - 1], b[|b| - 1];
      assert x in a && y in b;
      StrictIsAscending(a);
      StrictIsAscending(b);
      LastIsGreatest(a, y);
      LastIsGreatest(b, x);
      forall z
        ensures z in a' <==> z in b'
      {
        FrontOf(a, z);
        FrontOf(b, z);
      }
      SameAscending(a', b');
      assert a == a' + [x] && b == b' + [y];
    }
  }

  // ---------- the list object ----------

  /** The numbers one item appends: a number as it is, of a range those below the registry
      size. Too large numbers are clamped by Atoi. */
  function Expansion(t: string, size: nat): seq<int> {
    if IsDigits(t) then [if Atoi(t) > 0 then Atoi(t) - 1 else 0]
    else if IsRange(t) then
      var n := IndexOf(t, '-');
      var start, end := Atoi(t[..n]), Atoi(t[n + 1..]);
      if start > 0 then Span(start - 1, end - 1, size) else Span(start, end, size)
    else []
  }

  /** start..end without the numbers from size on. */
  function Span(start: int, end: int, size: nat): seq<int>
    decreases end - start + 1
  {
    if start > end then []
    else if end < size then Span(start, end - 1, size) + [end]
    else Span(start, end - 1, size)
  }

  function Expansions(items: seq<string>, size: nat, k: nat): seq<int>
    requires k <= |items|
  {
    if k == 0 then [] else Expansions(items, size, k - 1) + Expansion(items[k - 1], size)
  }

  lemma {:induction false} SpanElements(start: int, end: int, size: nat)
    ensures forall i: int :: i in Span(start, end, size) <==> start <= i <= end && i < size
    decreases end - start + 1
  {
    if start <= end {
      SpanElements(start, end - 1, size);
    }
  }

  lemma {:induction false} ExpansionDenotes(t: string, size: nat, i: int)
    requires 0 <= i < size < MAX_INT
    ensures i in Expansion(t, size) <==> ItemDenotes(t, i)
  {
    if !IsDigits(t) && IsRange(t) {
      var n := IndexOf(t, '-');
      var start: int, end: int := Atoi(t[..n]), Atoi(t[n + 1..]);
      SpanElements(start - 1, end - 1, size);
      SpanElements(start, end, size);
    }
  }

  lemma {:induction false} DenotedByMore(items: seq<string>, t: string, i: int)
    ensures Denoted(items + [t], i) <==> Denoted(items, i) || ItemDenotes(t, i)
  {
    var more := items + [t];
    if Denoted(items, i) {
      var k :| 0 <= k < |items| && ItemDenotes(items[k], i);
      assert ItemDenotes(more[k], i);
    }
    if ItemDenotes(t, i) {
      assert ItemDenotes(more[|items|], i);
    }
    if Denoted(more, i) {
      var k :| 0 <= k < |more| && ItemDenotes(more[k], i);
      assert k < |items| ==> ItemDenotes(items[k], i);
    }
  }

  lemma ExpandedBy(items: seq<string>, size: nat, k: nat)
    requires 0 < k <= |items|
    ensures forall i :: i in Expansions(items, size, k) <==>
              i in Expansions(items, size, k - 1) || i in Expansion(items[k - 1], size)
  {
  }

  lemma {:induction false} ExpansionsDenote(items: seq<string>, size: nat, k: nat, i: int)
    requires 0 <= i < size < MAX_INT && k <= |items|
    ensures i in Expansions(items, size, k) <==> Denoted(items[..k], i)
  {
    if k != 0 {
      ExpansionsDenote(items, size, k - 1, i);
      ExpansionDenotes(items[k - 1], size, i);
      assert items[..k] == items[..k - 1] + [items[k - 1]];
      ExpandedBy(items, size, k);
      DenotedByMore(items[..k - 1], items[k - 1], i);
    }
  }

  lemma {:induction false} SpanInRange(start: int, end: int, size: nat)
    ensures start >= 0 ==> forall i :: i in Span(start, end, size) ==> i >= 0
  {
    SpanElements(start, end, size);
  }

  lemma {:induction false} ExpansionNonNegative(t: string, size: nat)
    ensures forall i :: i in Expansion(t, size) ==> i >= 0
  {
    if !IsDigits(t) && IsRange(t) {
      var n := IndexOf(t, '-');
      SpanInRange(Atoi(t[..n]) - 1, Atoi(t[n + 1..]) - 1, size);
      SpanInRange(Atoi(t[..n]), Atoi(t[n + 1..]), size);
    }
  }

  lemma {:induction false} ExpansionsNonNegative(items: seq<string>, size: nat, k: nat)
    requires k <= |items|
    ensures forall i :: i in Expansions(items, size, k) ==> i >= 0
  {
    if k != 0 {
      ExpansionsNonNegative(items, size, k - 1);
      ExpansionNonNegative(items[k - 1], size);
      ExpandedBy(items, size, k);
    }
  }

  /** Sorting, deduplicating and filtering what the items expand to leaves exactly the
      denoted numbers in ascending order. */
  lemma {:induction false} PipelineSelects(items: seq<string>, size: nat)
    requires size < MAX_INT
    ensures var s := Sorted(Expansions(items, size, |items|));
            var u := FirstOccurrences(s, |s|);
            Below(u, size, |u|) == Selected(items, size)
  {
    var e := Expansions(items, size, |items|);
    var s := Sorted(e);
    var u := FirstOccurrences(s, |s|);
    SortedIsAscending(e);
    DedupedIsStrict(s, |s|);
    BelowKeepsOrder(u, size, |u|);
    SelectedIsAscending(items, size);
    ExpansionsNonNegative(items, size, |items|);
    assert s[..|s|] == s && u[..|u|] == u && items[..|items|] == items;
    forall i: int
      ensures i in Below(u, size, |u|) <==> i in Selected(items, size)
    {
      if 0 <= i < size {
        ExpansionsDenote(items, size, |items|, i);
      }
    }
    SameAscending(Below(u, size, |u|), Selected(items, size));
  }

  // ---------- ranges that never end ----------

  /** The loop counter is an int64 and wraps around. */
  function NextIndex(index: int): int {
    if index == MAX_INT then -1 - MAX_INT else index + 1
  }

  /** The counter after n steps. */
  function IndexAfter(start: int, n: nat): int {
    if n == 0 then start else NextIndex(IndexAfter(start, n - 1))
  }

  lemma {:induction false} IndexStaysBelow(start: int, n: nat)
    requires start <= MAX_INT
    ensures IndexAfter(start, n) <= MAX_INT
  {
    if n > 0 {
      IndexStaysBelow(start, n - 1);
    }
  }

  lemma {:induction false} IndexCounts(start: int, n: nat)
    requires start + n <= MAX_INT
    ensures IndexAfter(start, n) == start + n
  {
    if n > 0 {
      IndexCounts(start, n - 1);
    }
  }

  /** The counting loop leaves the range exactly if the range ends below the largest number. */
  lemma {:induction false} RangeLoopEndsExactlyWhen(start: int, end: int)
    requires start <= end <= MAX_INT
    ensures (exists n: nat :: IndexAfter(start, n) > end) <==> end < MAX_INT
  {
    if end < MAX_INT {
      IndexCounts(start, end + 1 - start);
    } else {
      forall n: nat
        ensures IndexAfter(start, n) <= end
      {
        IndexStaysBelow(start, n);
      }
    }
  }

  /** A range from 0 to the largest number or beyond: only these keep their end as it is. */
  predicate RunsOn(t: string) {
    && !IsDigits(t) && IsRange(t)
    && var n := IndexOf(t, '-');
       Number(t[..n]) == 0 && Number(t[n + 1..]) >= MAX_INT
  }

  predicate NoneRunsOn(items: seq<string>, k: nat)
    requires k <= |items|
  {
    forall i :: 0 <= i < k ==> !RunsOn(items[i])
  }

  lemma NextRunsOn(items: seq<string>, k: nat)
    requires k < |items|
    ensures NoneRunsOn(items, k + 1) <==> NoneRunsOn(items, k) && !RunsOn(items[k])
  {
  }

  lemma SomeRunsOn(items: seq<string>, k: nat)
    requires k <= |items| && !NoneRunsOn(items, k)
    ensures !NoneRunsOn(items, |items|)
  {
  }

  /** The program lists the names, exits, or goes on appending for ever. */
  datatype Outcome = Listed | Invalid | Endless

  function OutcomeOf(hashlist: string): Outcome {
    if !MatchesCsv(Normalised(hashlist)) then Invalid
    else
      var items := Split(Normalised(hashlist), ',');
      if NoneRunsOn(items, |items|) then Listed else Endless
  }

  // ---------- the bit grammar ----------

  predicate IsBit(c: char) {
    c == '0' || c == '1'
  }

  /** ^([01]+)$ */
  predicate AllBits(s: string) {
    s != [] && forall i :: 0 <= i < |s| ==> IsBit(s[i])
  }

  /** The bits among the first k characters. */
  function Bits(s: string, k: nat): (r: string)
    requires k <= |s|
    ensures forall i :: 0 <= i < |r| ==> IsBit(r[i])
  {
    if k == 0 then []
    else if IsBit(s[k - 1]) then Bits(s, k - 1) + [s[k - 1]]
    else Bits(s, k - 1)
  }

  /** Positions of the ones among the first k bits. */
  function Ones(bits: string, k: nat): (r: seq<int>)
    requires k <= |bits|
    ensures InRange(r, k)
  {
    if k == 0 then []
    else if bits[k - 1] == '1' then Ones(bits, k - 1) + [k - 1]
    else Ones(bits, k - 1)
  }

  function Min(a: nat, b: nat): nat {
    if a <= b then a else b
  }

  /** The names for a list in the bit grammar. */
  function BinaryNames(hlist: seq<Signature>, s: string): seq<string> {
    var bits := Bits(s, |s|);
    Names(hlist, Ones(bits, Min(|bits|, |hlist|)))
  }

  lemma {:induction false} BitsAreKept(s: string, k: nat)
    requires AllBits(s) && k <= |s|
    ensures Bits(s, k) == s[..k]
  {
    if k != 0 {
      BitsAreKept(s, k - 1);
      assert s[..k] == s[..k - 1] + [s[k - 1]];
    }
  }

  lemma {:induction false} OnesAreAscending(bits: string, k: nat)
    requires k <= |bits|
    ensures StrictlyAscending(Ones(bits, k))
    ensures forall i :: i in Ones(bits, k) <==> 0 <= i < k && bits[i] == '1'
  {
    if k != 0 {
      OnesAreAscending(bits, k - 1);
      AppendStrict(Ones(bits, k - 1), k - 1);
    }
  }

  // ---------- the names in their order ----------

  /** The names stand in the order of their numbers. */
  ghost predicate InOrder(hlist: seq<Signature>, indices: seq<int>, names: seq<string>) {
    && StrictlyAscending(indices) && |names| == |indices|
    && forall k :: 0 <= k < |indices| ==> 0 <= indices[k] < |hlist| && names[k] == hlist[indices[k]].name
  }

  lemma {:induction false} NamesAt(hlist: seq<Signature>, indices: seq<int>, k: nat)
    requires InRange(indices, |hlist|)
    ensures |Names(hlist, indices)| == |indices|
    ensures k < |indices| ==> Names(hlist, indices)[k] == hlist[indices[k]].name
  {
    if indices != [] {
      NamesAt(hlist, indices[..|indices| - 1], k);
    }
  }

  lemma {:induction false} NamesAreInOrder(hlist: seq<Signature>, indices: seq<int>)
    requires InRange(indices, |hlist|) && StrictlyAscending(indices)
    ensures InOrder(hlist, indices, Names(hlist, indices))
  {
    NamesAt(hlist, indices, 0);
    forall k | 0 <= k < |indices|
      ensures Names(hlist, indices)[k] == hlist[indices[k]].name
    {
      NamesAt(hlist, indices, k);
    }
  }

  /** The names of the registered numbers that the items denote, in ascending order. */
  ghost predicate NamesOfDenoted(hlist: seq<Signature>, items: seq<string>, names: seq<string>) {
    exists indices: seq<int> :: InOrder(hlist, indices, names)
      && forall i :: i in indices <==> 0 <= i < |hlist| && Denoted(items, i)
  }

  /** The names of the registered signatures at the ones of a bit string, in their order. */
  ghost predicate NamesOfOnes(hlist: seq<Signature>, bits: string, names: seq<string>) {
    exists indices: seq<int> :: InOrder(hlist, indices, names)
      && forall i :: i in indices <==> 0 <= i < |hlist| && i < |bits| && bits[i] == '1'
  }

  lemma {:induction false} CsvIsInOrder(hlist: seq<Signature>, hashlist: string)
    ensures NamesOfDenoted(hlist, Split(Normalised(hashlist), ','), CsvNames(hlist, hashlist))
  {
    var items := Split(Normalised(hashlist), ',');
    SelectedIsAscending(items, |hlist|);
    SelectedInRange(items, |hlist|);
    NamesAreInOrder(hlist, Selected(items, |hlist|));
  }

  lemma {:induction false} BinaryIsInOrder(hlist: seq<Signature>, hashlist: string)
    requires AllBits(hashlist)
    ensures NamesOfOnes(hlist, hashlist, BinaryNames(hlist, hashlist))
  {
    BitsAreKept(hashlist, |hashlist|);
    assert hashlist[..|hashlist|] == hashlist;
    OnesAreAscending(hashlist, Min(|hashlist|, |hlist|));
    NamesAreInOrder(hlist, Ones(hashlist, Min(|hashlist|, |hlist|)));
  }

  // ---------- block sizes ----------

  function SizeMap(hlist: seq<Signature>, k: nat): map<string, nat>
    requires k <= |hlist|
  {
    if k == 0 then map[] else SizeMap(hlist, k - 1)[hlist[k - 1].name := hlist[k - 1].blocksize]
  }

  /** Sizes of the known ones among the first k names. */
  function SizesOf(m: map<string, nat>, names: seq<string>, k: nat): seq<nat>
    requires k <= |names|
  {
    if k == 0 then []
    else if names[k - 1] in m then SizesOf(m, names, k - 1) + [m[names[k - 1]]]
    else SizesOf(m, names, k - 1)
  }

  ghost predicate DistinctNames(hlist: seq<Signature>) {
    forall i, j :: 0 <= i < j < |hlist| ==> hlist[i].name != hlist[j].name
  }

  /** Every registered name is mapped to its own block size, and no other name to any. */
  lemma {:induction false} SizeMapIsRegistry(hlist: seq<Signature>, k: nat)
    requires k <= |hlist| && DistinctNames(hlist)
    ensures forall i :: 0 <= i < k ==>
              hlist[i].name in SizeMap(hlist, k) && SizeMap(hlist, k)[hlist[i].name] == hlist[i].blocksize
    ensures forall name :: name in SizeMap(hlist, k) ==> exists i :: 0 <= i < k && hlist[i].name == name
  {
    if k != 0 {
      SizeMapIsRegistry(hlist, k - 1);
    }
  }

  lemma {:induction false} SizesOfJoined(m: map<string, nat>, a: seq<string>, b: seq<string>, k: nat)
    requires k <= |b|
    ensures SizesOf(m, a + b, |a| + k) == SizesOf(m, a, |a|) + SizesOf(m, b, k)
  {
    if k == 0 {
      SizesOfFront(m, a, b, |a|);
    } else {
      SizesOfJoined(m, a, b, k - 1);
    }
  }

  lemma {:induction false} SizesOfFront(m: map<string, nat>, a: seq<string>, b: seq<string>, k: nat)
    requires k <= |a|
    ensures SizesOf(m, a + b, k) == SizesOf(m, a, k)
  {
    if k != 0 {
      SizesOfFront(m, a, b, k - 1);
    }
  }

  /** An unknown name is passed over. */
  lemma {:induction false} UnknownIsPassedOver(m: map<string, nat>, a: seq<string>, name: string, b: seq<string>)
    requires name !in m
    ensures SizesOf(m, a + [name] + b, |a| + 1 + |b|) == SizesOf(m, a + b, |a| + |b|)
  {
    SizesOfJoined(m, a + [name], b, |b|);
    SizesOfJoined(m, a, b, |b|);
    SizesOfFront(m, a, [name], |a|);
  }

  class BlockList {
    const hlist: seq<Signature>
    var m: map<string, nat>
    var hashList: seq<string>
    var blockSize: nat
    var blockSizeArr: seq<nat>

    ghost predicate Valid()
      reads this
    {
      m == SizeMap(hlist, |hlist|) && |hlist| < MAX_INT
    }

    constructor (hlist: seq<Signature>)
      requires |hlist| < MAX_INT
      ensures Valid() && this.hlist == hlist && hashList == [] && blockSize == 0 && blockSizeArr == []
    {
      this.hlist, m, hashList, blockSize, blockSizeArr := hlist, map[], [], 0, [];
      new;
      var i := 0;
      while i < |hlist|
        invariant 0 <= i <= |hlist| && m == SizeMap(hlist, i) && this.hlist == hlist
        invariant hashList == [] && blockSize == 0 && blockSizeArr == []
      {
        m := m[hlist[i].name := hlist[i].blocksize];
        i := i + 1;
      }
    }

    /** Chooses the grammar; a bit string is never taken for a number. */
    method CreateHashBlockList(hashlist: string) returns (outcome: Outcome)
      requires Valid()
      modifies `hashList
      ensures outcome == if AllBits(hashlist) then Listed else OutcomeOf(hashlist)
      ensures outcome == Listed ==>
                hashList == if AllBits(hashlist) then BinaryNames(hlist, hashlist) else CsvNames(hlist, hashlist)
      ensures outcome == Listed ==>
                if AllBits(hashlist) then NamesOfOnes(hlist, hashlist, hashList)
                else NamesOfDenoted(hlist, Split(Normalised(hashlist), ','), hashList)
    {
      var matched := AllBits(hashlist);
      var csvmatched := MatchesCsv(Normalised(hashlist));
      outcome := Listed;
      if matched {
        CreateHashBlockListBinary(hashlist);
      } else if csvmatched {
        outcome := CreateHashBlockListCSV(hashlist);
      } else {
        outcome := Invalid;
      }
    }

    method CreateHashBlockListBinary(hashlistBoolean: string)
      modifies `hashList
      ensures hashList == BinaryNames(hlist, hashlistBoolean)
      ensures AllBits(hashlistBoolean) ==> NamesOfOnes(hlist, hashlistBoolean, hashList)
    {
      hashList := [];
      var arr := Bits(hashlistBoolean, |hashlistBoolean|);
      var length := |hlist|;
      var i := 0;
      while i < |arr|
        invariant 0 <= i <= Min(|arr|, length)
        invariant hashList == Names(hlist, Ones(arr, i))
      {
        if i >= length {
          break;
        }
        if arr[i] == '1' {
          AddHashList(i, Ones(arr, i));
        }
        i := i + 1;
      }
      if AllBits(hashlistBoolean) {
        BinaryIsInOrder(hlist, hashlistBoolean);
      }
    }

    /** Appends a name; indices are those of the names so far. */
    method AddHashList(number: nat, ghost indices: seq<int>)
      requires number < |hlist| && InRange(indices, |hlist|) && hashList == Names(hlist, indices)
      modifies `hashList
      ensures InRange(indices + [number], |hlist|) && hashList == Names(hlist, indices + [number])
    {
      hashList := hashList + [hlist[number].name];
      assert (indices + [number])[..|indices|] == indices;
    }

    method CreateHashBlockListCSV(hashlistCSV: string) returns (outcome: Outcome)
      requires Valid()
      modifies `hashList
      ensures outcome == OutcomeOf(hashlistCSV)
      ensures outcome == Listed ==> hashList == CsvNames(hlist, hashlistCSV)
      ensures outcome == Listed ==> NamesOfDenoted(hlist, Split(Normalised(hashlistCSV), ','), hashList)
    {
      hashList := [];
      var csv := Normalised(hashlistCSV);
      if !MatchesCsv(csv) {
        return Invalid;
      }
      var arr := Split(csv, ',');
      var ended, list := Expand(arr);
      if !ended {
        return Endless;
      }
      var s, n := SortAndDedupe(list);
      AddNames(s, n);
      PipelineSelects(arr, |hlist|);
      CsvIsInOrder(hlist, hashlistCSV);
      outcome := Listed;
    }

    method SortAndDedupe(list: seq<int>) returns (s: array<int>, n: nat)
      requires NonNegative(list)
      ensures fresh(s) && n <= s.Length
      ensures s[..n] == FirstOccurrences(Sorted(list), |Sorted(list)|)
      ensures NonNegative(s[..n])
    {
      var sorted := Sorted(list);
      s := new int[|sorted|](i requires 0 <= i < |sorted| => sorted[i]);
      assert s[..] == sorted;
      n := Uniques(s);
      assert s[..n] == FirstOccurrences(sorted, |sorted|);
      DedupedNonNegative(list);
    }

    /** The loop over the items; it does not end if one of their ranges does not. */
    method Expand(arr: seq<string>) returns (ended: bool, s: seq<int>)
      ensures ended <==> NoneRunsOn(arr, |arr|)
      ensures ended ==> s == Expansions(arr, |hlist|, |arr|) && NonNegative(s)
    {
      ended, s := true, [];
      var k := 0;
      while k < |arr| && ended
        invariant 0 <= k <= |arr| && (ended <==> NoneRunsOn(arr, k))
        invariant ended ==> s == Expansions(arr, |hlist|, k)
      {
        NextRunsOn(arr, k);
        ended, s := ExpandItem(arr[k], s);
        k := k + 1;
      }
      if ended {
        AllNonNegative(arr, |hlist|);
      } else {
        SomeRunsOn(arr, k);
      }
    }

    method ExpandItem(hash: string, before: seq<int>) returns (ended: bool, s: seq<int>)
      ensures ended <==> !RunsOn(hash)
      ensures ended ==> s == before + Expansion(hash, |hlist|)
    {
      ended, s := true, before;
      if IsDigits(hash) {
        var index := Atoi(hash);
        if index > 0 {
          index := index - 1;
        }
        s := s + [index];
      } else if IsRange(hash) {
        var dash := IndexOf(hash, '-');
        var start: int, end: int := Atoi(hash[..dash]), Atoi(hash[dash + 1..]);
        if start > 0 {
          start := start - 1;
          end := end - 1;
        }
        ended, s := ExpandRange(start, end, s);
      }
    }

    /** The loop over a range. When its counter is about to wrap around it will never end. */
    method ExpandRange(start: int, end: int, before: seq<int>) returns (ended: bool, s: seq<int>)
      requires start <= MAX_INT && end <= MAX_INT
      ensures ended <==> start > end || exists n: nat :: IndexAfter(start, n) > end
      ensures ended <==> start > end || end < MAX_INT
      ensures ended ==> s == before + Span(start, end, |hlist|)
    {
      ended, s := true, before;
      if start <= end {
        RangeLoopEndsExactlyWhen(start, end);
        var index := start;
        while index <= end && ended
          invariant start <= index <= end + 1 && s == before + Span(start, index - 1, |hlist|)
          invariant ended || (index == end == MAX_INT)
          invariant index <= MAX_INT
          decreases end + 1 - index, ended
        {
          if index == MAX_INT {
            ended := false;
          } else {
            if index < |hlist| {
              s := s + [index];
            }
            index := index + 1;
          }
        }
      }
    }

    /** The loop that adds the names of the first n numbers. */
    method AddNames(s: array<int>, n: nat)
      requires n <= s.Length && hashList == [] && NonNegative(s[..n])
      modifies `hashList
      ensures InRange(Below(s[..n], |hlist|, n), |hlist|)
      ensures hashList == Names(hlist, Below(s[..n], |hlist|, n))
    {
      ghost var u := s[..n];
      var k := 0;
      while k < n
        invariant 0 <= k <= n
        invariant InRange(Below(u, |hlist|, k), |hlist|) && hashList == Names(hlist, Below(u, |hlist|, k))
      {
        assert s[k] == u[k];
        if s[k] < |hlist| {
          AddHashList(s[k], Below(u, |hlist|, k));
        }
        k := k + 1;
      }
    }

    /** Deduplicates in place: the result is written over the front of the list that is
        being read. */
    method Uniques(s: array<int>) returns (n: nat)
      modifies s
      ensures n <= s.Length && s[..n] == FirstOccurrences(old(s[..]), s.Length)
    {
      ghost var before := s[..];
      var seen: seq<int> := [];
      n := 0;
      var i := 0;
      while i < s.Length
        invariant 0 <= n <= i <= s.Length
        invariant s[..n] == seen == FirstOccurrences(before, i) && s[i..] == before[i..]
      {
        var v := s[i];
        assert v == s[i..][0] == before[i];
        var found := false;
        var k := 0;
        while k < |seen|
          invariant 0 <= k <= |seen| && (found <==> v in seen[..k])
        {
          if v == seen[k] {
            found := true;
          }
          assert seen[..k + 1] == seen[..k] + [seen[k]];
          k := k + 1;
        }
        assert seen[..k] == seen;
        if !found {
          seen := seen + [v];
          s[n] := v;
          n := n + 1;
          assert s[..n] == s[..n - 1] + [v];
        }
        i := i + 1;
        assert s[i..] == before[i - 1..][1..];
      }
    }

    /** The sizes of the listed signatures and their sum. */
    method CalcHashBlockSize(hashlist: string)
      requires Valid()
      modifies `blockSize, `blockSizeArr
      ensures Valid()
      ensures blockSizeArr == SizesOf(m, Split(hashlist, ':'), |Split(hashlist, ':')|)
      ensures blockSize == Total(blockSizeArr, |blockSizeArr|)
    {
      var hashName := Split(hashlist, ':');
      blockSizeArr := [];
      blockSize := 0;
      var i := 0;
      while i < |hashName|
        invariant 0 <= i <= |hashName| && blockSizeArr == SizesOf(m, hashName, i)
        invariant blockSize == Total(blockSizeArr, |blockSizeArr|)
      {
        if hashName[i] in m {
          AddBlockSig(m[hashName[i]]);
        }
        i := i + 1;
      }
    }

    method AddBlockSig(hashSize: nat)
      requires blockSize == Total(blockSizeArr, |blockSizeArr|)
      modifies `blockSize, `blockSizeArr
      ensures blockSizeArr == old(blockSizeArr) + [hashSize] && blockSize == old(blockSize) + hashSize
      ensures blockSize == Total(blockSizeArr, |blockSizeArr|)
    {
      TotalExtends(blockSizeArr, [hashSize], |blockSizeArr|);
      blockSizeArr := blockSizeArr + [hashSize];
      blockSize := blockSize + hashSize;
    }
  }

  predicate NonNegative(s: seq<int>) {
    forall k :: 0 <= k < |s| ==> s[k] >= 0
  }

  lemma AllNonNegative(items: seq<string>, size: nat)
    ensures NonNegative(Expansions(items, size, |items|))
  {
    var s := Expansions(items, size, |items|);
    ExpansionsNonNegative(items, size, |items|);
    forall k | 0 <= k < |s|
      ensures s[k] >= 0
    {
      assert s[k] in s;
    }
  }

  lemma DedupedNonNegative(list: seq<int>)
    requires NonNegative(list)
    ensures NonNegative(FirstOccurrences(Sorted(list), |Sorted(list)|))
  {
    SortedIsAscending(list);
    var s := Sorted(list);
    var u := FirstOccurrences(s, |s|);
    FirstOccurrencesProperties(s, |s|);
    forall k | 0 <= k < |u|
      ensures u[k] >= 0
    {
      assert u[k] in u;
      assert s[..|s|] == s;
      assert u[k] in list;
    }
  }
}
