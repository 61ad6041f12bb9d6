/** The two grammars of signature lists agree: a string of bits and the comma list of the
    positions of its ones select the same signatures. */
module SignatureGrammar {
  import opened Text
  import opened SignatureList

  // ---------- the comma grammar ----------

  function Decimals(ps: seq<nat>): (parts: seq<string>)
    ensures |parts| == |ps|
  {
    seq(|ps|, i requires 0 <= i < |ps| => Decimal(ps[i]))
  }

  /** A comma list of numbers. */
  function PrintList(ps: seq<nat>): string
    requires |ps| >= 1
  {
    JoinWith(Decimals(ps), ',')
  }

  ghost predicate AllItems(parts: seq<string>) {
    forall i :: 0 <= i < |parts| ==> IsItem(parts[i])
  }

  lemma {:induction false} ItemHasNoComma(t: string)
    requires IsItem(t)
    ensures t != [] && ',' !in t
  {
    if IsDigits(t) {
      DigitsHaveNoOther(t, ',');
    } else {
      var n := IndexOf(t, '-');
      DigitsHaveNoOther(t[..n], ',');
      DigitsHaveNoOther(t[n + 1..], ',');
      assert t == t[..n] + [t[n]] + t[n + 1..];
    }
  }

  lemma {:induction false} DropSkips(p: string, rest: string)
    requires ',' !in p && p != [] && (rest == [] || rest[0] != ',')
    ensures DropFirstDoubleComma(p + "," + rest) == p + "," + DropFirstDoubleComma(rest)
  {
    var s := p + "," + rest;
    assert p[0] in p && s[0] == p[0];
    assert DropFirstDoubleComma(s) == [s[0]] + DropFirstDoubleComma(s[1..]);
    if |p| == 1 {
      assert s[1..] == "," + rest;
      assert (("," + rest)[1..]) == rest;
    } else {
      assert s[1..] == p[1..] + "," + rest;
      DropSkips(p[1..], rest);
    }
  }

  lemma {:induction false} TerminatedStart(parts: seq<string>)
    requires AllItems(parts)
    ensures parts != [] ==> Terminated(parts) != [] && Terminated(parts)[0] != ','
  {
    if parts != [] {
      ItemHasNoComma(parts[0]);
      assert parts[0][0] in parts[0];
    }
  }

  /** Such a text has no double comma. */
  lemma {:induction false} TerminatedIsNormal(parts: seq<string>)
    requires AllItems(parts)
    ensures DropFirstDoubleComma(Terminated(parts)) == Terminated(parts)
  {
    if parts != [] {
      var rest := parts[1..];
      TerminatedIsNormal(rest);
      TerminatedStart(rest);
      ItemHasNoComma(parts[0]);
      DropSkips(parts[0], Terminated(rest));
    }
  }

  lemma {:induction false} FirstItem(item: string, rest: string)
    requires IsItem(item)
    ensures MatchesCsv(item + "," + rest) <==> rest == [] || MatchesCsv(rest)
  {
    var s := item + "," + rest;
    ItemHasNoComma(item);
    IndexOfFirst(item, ',', "," + rest);
    assert s == item + ("," + rest);
    assert s[..|item|] == item && s[|item| + 1..] == rest;
  }

  /** It matches the grammar. */
  lemma {:induction false} TerminatedMatches(parts: seq<string>)
    requires AllItems(parts) && parts != []
    ensures MatchesCsv(Terminated(parts))
  {
    var rest := parts[1..];
    FirstItem(parts[0], Terminated(rest));
    if rest != [] {
      TerminatedMatches(rest);
    }
  }

  /** Conversely every text that matches the grammar is a list of items. */
  lemma {:induction false} MatchedItems(s: string) returns (parts: seq<string>)
    requires MatchesCsv(s)
    ensures parts != [] && AllItems(parts) && s == Terminated(parts)
  {
    var n := IndexOf(s, ',');
    var rest := [];
    if n + 1 < |s| {
      rest := MatchedItems(s[n + 1..]);
    }
    parts := [s[..n]] + rest;
    assert parts[1..] == rest;
    assert s == s[..n] + "," + s[n + 1..];
  }

  /** A list of items without or with a trailing comma is read as exactly these items. */
  lemma {:induction false} ItemsAreRead(parts: seq<string>)
    requires AllItems(parts) && |parts| >= 1
    ensures MatchesCsv(Normalised(JoinWith(parts, ',')))
    ensures Split(Normalised(JoinWith(parts, ',')), ',') == parts + [""]
  {
    TerminatedJoin(parts);
    TerminatedIsNormal(parts);
    TerminatedMatches(parts);
    forall i | 0 <= i < |parts + [""]|
      ensures ',' !in (parts + [""])[i]
    {
      if i < |parts| {
        ItemHasNoComma(parts[i]);
      }
    }
    SplitOfJoin(parts + [""], ',');
  }

  /** A range from 0 is listed exactly up to the largest number but one; from there on the
      program does not come to an end. */
  lemma {:induction false} RangeFromZeroEndsExactlyWhen(n: nat)
    ensures OutcomeOf("0-" + Decimal(n)) == if n < MAX_INT then Listed else Endless
  {
    var t := "0-" + Decimal(n);
    assert t == "0" + ("-" + Decimal(n));
    IndexOfFirst("0", '-', "-" + Decimal(n));
    assert t[..1] == "0" && t[2..] == Decimal(n);
    assert Number("0") == Number([]) * 10 + 0;
    NumberOfDecimal(n);
    assert IsRange(t) && !IsDigit(t[1]);
    ItemsAreRead([t]);
    var items := [t] + [""];
    assert JoinWith([t], ',') == t;
    assert RunsOn(items[0]) <==> n >= MAX_INT;
    assert !RunsOn(items[1]);
  }

  // ---------- agreement ----------

  /** ps lists the positions of the ones, counted from 1, in any order and with repeats. */
  ghost predicate ListsOnes(ps: seq<nat>, bits: string) {
    forall p: nat :: p in ps <==> 1 <= p <= |bits| && bits[p - 1] == '1'
  }

  lemma {:induction false} DecimalDenotes(p: nat, i: int)
    requires p >= 1
    ensures ItemDenotes(Decimal(p), i) <==> i == p - 1
  {
    NumberOfDecimal(p);
  }

  lemma {:induction false} ListDenotes(ps: seq<nat>, bits: string, i: int)
    requires ListsOnes(ps, bits)
    ensures Denoted(Decimals(ps) + [""], i) <==> 0 <= i < |bits| && bits[i] == '1'
  {
    var items := Decimals(ps) + [""];
    if Denoted(items, i) {
      var k :| 0 <= k < |items| && ItemDenotes(items[k], i);
      if k < |ps| {
        assert ps[k] in ps;
        DecimalDenotes(ps[k], i);
      }
    }
    if 0 <= i < |bits| && bits[i] == '1' {
      var p: nat := i + 1;
      assert p in ps;
      var k :| 0 <= k < |ps| && ps[k] == p;
      DecimalDenotes(p, i);
      assert ItemDenotes(items[k], i);
    }
  }

  /** A list of numbers is listed: it matches the grammar and has no ranges. */
  lemma {:induction false} NumbersAreListed(ps: seq<nat>)
    requires |ps| >= 1
    ensures OutcomeOf(PrintList(ps)) == Listed
    ensures Split(Normalised(PrintList(ps)), ',') == Decimals(ps) + [""]
  {
    ItemsAreRead(Decimals(ps));
  }

  /** Both grammars select the same signatures. */
  lemma {:induction false} GrammarsAgree(hlist: seq<Signature>, bits: string, ps: seq<nat>)
    requires AllBits(bits) && |ps| >= 1 && ListsOnes(ps, bits)
    ensures OutcomeOf(PrintList(ps)) == Listed
    ensures CsvNames(hlist, PrintList(ps)) == BinaryNames(hlist, bits)
  {
    NumbersAreListed(ps);
    var items, size := Decimals(ps) + [""], |hlist|;
    BitsAreKept(bits, |bits|);
    assert Bits(bits, |bits|) == bits;
    var k := Min(|bits|, size);
    SelectedIsAscending(items, size);
    OnesAreAscending(bits, k);
    forall i
      ensures i in Selected(items, size) <==> i in Ones(bits, k)
    {
      ListDenotes(ps, bits, i);
    }
    SameAscending(Selected(items, size), Ones(bits, k));
  }

  /** Order, overlap, repeats, reversed ranges and numbers beyond the registry do not matter:
      lists that denote the same registered numbers select the same names. */
  lemma {:induction false} SameDenotationSameNames(hlist: seq<Signature>, a: string, b: string)
    requires forall i :: 0 <= i < |hlist| ==>
               (Denoted(Split(Normalised(a), ','), i) <==> Denoted(Split(Normalised(b), ','), i))
    ensures CsvNames(hlist, a) == CsvNames(hlist, b)
  {
    SelectedIsAscending(Split(Normalised(a), ','), |hlist|);
    SelectedIsAscending(Split(Normalised(b), ','), |hlist|);
    SameAscending(Selected(Split(Normalised(a), ','), |hlist|), Selected(Split(Normalised(b), ','), |hlist|));
  }

  /** What a list parameter selects that the program gets to the end of. */
  ghost function Chosen(hlist: seq<Signature>, list: string): seq<string>
    requires AllBits(list) || OutcomeOf(list) == Listed
  {
    if AllBits(list) then BinaryNames(hlist, list) else CsvNames(hlist, list)
  }

  lemma {:induction false} CommaIsInList(ps: seq<nat>)
    requires |ps| >= 2
    ensures ',' in PrintList(ps)
  {
    var parts := Decimals(ps);
    assert PrintList(ps)[|parts[0]|] == ',';
  }

  // ---------- a single number of ones and zeros ----------

  lemma {:induction false} NamesElements(hlist: seq<Signature>, indices: seq<int>, x: string)
    requires InRange(indices, |hlist|)
    ensures x in Names(hlist, indices) <==> exists k :: 0 <= k < |indices| && hlist[indices[k]].name == x
  {
    if indices != [] {
      var front, last := indices[..|indices| - 1], indices[|indices| - 1];
      NamesElements(hlist, front, x);
      assert forall k :: 0 <= k < |front| ==> front[k] == indices[k];
      assert Names(hlist, indices) == Names(hlist, front) + [hlist[last].name];
      if x == hlist[last].name {
        assert hlist[indices[|indices| - 1]].name == x;
      }
    }
  }

  lemma {:induction false} NoLeadingZero(p: nat)
    requires p >= 1
    ensures Decimal(p)[0] != '0'
  {
    if p >= 10 {
      NoLeadingZero(p / 10);
    }
  }

  /** Read as bits, such a number selects the first signature. */
  lemma {:induction false} BitsSelectFirst(hlist: seq<Signature>, p: nat)
    requires |hlist| >= 1 && p >= 1 && AllBits(Decimal(p))
    ensures hlist[0].name in BinaryNames(hlist, Decimal(p))
  {
    var bits := Decimal(p);
    NoLeadingZero(p);
    BitsAreKept(bits, |bits|);
    assert Bits(bits, |bits|) == bits;
    var k := Min(|bits|, |hlist|);
    OnesAreAscending(bits, k);
    assert 0 in Ones(bits, k);
    NamesElements(hlist, Ones(bits, k), hlist[0].name);
  }

  /** Read as an item, it selects its own signature only; 0 counts as 1. */
  lemma {:induction false} ItemSelectsOwn(hlist: seq<Signature>, p: nat, x: string)
    ensures x in CsvNames(hlist, Decimal(p)) <==>
            var i := if p > 0 then p - 1 else 0; i < |hlist| && hlist[i].name == x
  {
    var items, size := Decimals([p]) + [""], |hlist|;
    var own := if p > 0 then p - 1 else 0;
    assert PrintList([p]) == Decimal(p);
    NumbersAreListed([p]);
    SelectedIsAscending(items, size);
    SelectedInRange(items, size);
    NumberOfDecimal(p);
    forall i: int
      ensures Denoted(items, i) <==> i == own
    {
      assert ItemDenotes(items[0], i) <==> i == own;
      assert !ItemDenotes(items[1], i);
    }
    var selected := Selected(items, size);
    assert forall k :: 0 <= k < |selected| ==> selected[k] in selected;
    if own < size {
      assert Denoted(items, own) && own in selected;
      var k :| 0 <= k < |selected| && selected[k] == own;
      assert hlist[selected[k]].name == hlist[own].name;
    }
    NamesElements(hlist, selected, x);
  }

  lemma {:induction false} OneEitherWay(hlist: seq<Signature>)
    ensures AllBits(Decimal(1)) && CsvNames(hlist, Decimal(1)) == BinaryNames(hlist, Decimal(1))
  {
    var bits := Decimal(1);
    assert bits == "1";
    assert PrintList([1]) == bits;
    assert ListsOnes([1], bits);
    GrammarsAgree(hlist, bits, [1]);
  }

  lemma {:induction false} ZeroSelectsNoBits(hlist: seq<Signature>)
    ensures AllBits(Decimal(0)) && BinaryNames(hlist, Decimal(0)) == []
  {
    var bits := Decimal(0);
    assert bits == "0";
    BitsAreKept(bits, |bits|);
    assert Bits(bits, |bits|) == bits;
    assert Ones(bits, 0) == Ones(bits, 1) == [];
  }

  /** The list of one number selects what it denotes as a comma list exactly unless all its
      digits are ones and zeros, which are taken for bits; of those only 1 is an exception. */
  lemma {:induction false} NumberIsTakenForBitsExactlyWhen(hlist: seq<Signature>, p: nat)
    requires |hlist| >= 1 && DistinctNames(hlist)
    ensures OutcomeOf(Decimal(p)) == Listed
    ensures Chosen(hlist, Decimal(p)) == CsvNames(hlist, Decimal(p)) <==> !AllBits(Decimal(p)) || p == 1
  {
    assert PrintList([p]) == Decimal(p);
    NumbersAreListed([p]);
    OneEitherWay(hlist);
    if AllBits(Decimal(p)) && p != 1 {
      var first := hlist[0].name;
      ItemSelectsOwn(hlist, p, first);
      if p == 0 {
        ZeroSelectsNoBits(hlist);
      } else {
        BitsSelectFirst(hlist, p);
      }
    }
  }

  /** The positions of the ones of a bit string can be given instead of it exactly unless there
      is just one of them, it is not 1 and its own digits look like bits. */
  lemma {:induction false} EitherWay(hlist: seq<Signature>, bits: string, ps: seq<nat>)
    requires AllBits(bits) && |ps| >= 1 && ListsOnes(ps, bits) && |hlist| >= 1 && DistinctNames(hlist)
    ensures OutcomeOf(PrintList(ps)) == Listed
    ensures Chosen(hlist, PrintList(ps)) == Chosen(hlist, bits)
            <==> |ps| >= 2 || !AllBits(Decimal(ps[0])) || ps[0] == 1
  {
    GrammarsAgree(hlist, bits, ps);
    if |ps| >= 2 {
      CommaIsInList(ps);
    } else {
      assert PrintList(ps) == Decimal(ps[0]);
      NumberIsTakenForBitsExactlyWhen(hlist, ps[0]);
    }
  }

  // ---------- from the text to the names, in order ----------

  /** An entry of a comma list: digits, or two of them with a dash. */
  datatype Item = One(digits: string) | Range(from: string, to: string)

  predicate ValidItem(item: Item) {
    match item
    case One(digits) => IsDigits(digits)
    case Range(from, to) => IsDigits(from) && IsDigits(to)
  }

  function ItemText(item: Item): string {
    match item
    case One(digits) => digits
    case Range(from, to) => from + "-" + to
  }

  /** The list counts from 1, and 0 stands for 1; a range that starts at 0 counts from 0. */
  predicate Covers(item: Item, i: int)
    requires ValidItem(item)
  {
    match item
    case One(digits) => (Number(digits) == 0 && i == 0) || (Number(digits) > 0 && i == Number(digits) - 1)
    case Range(from, to) =>
      (Number(from) == 0 && 0 <= i <= Number(to)) || (Number(from) > 0 && Number(from) - 1 <= i < Number(to))
  }

  /** A range from 0 to 2^63 - 1 or beyond. */
  predicate NeverEnds(item: Item)
    requires ValidItem(item)
  {
    item.Range? && Number(item.from) == 0 && Number(item.to) >= 0x7fff_ffff_ffff_ffff
  }

  function Texts(items: seq<Item>): (parts: seq<string>)
    ensures |parts| == |items|
  {
    seq(|items|, k requires 0 <= k < |items| => ItemText(items[k]))
  }

  lemma {:induction false} RangeText(from: string, to: string)
    requires IsDigits(from) && IsDigits(to)
    ensures var t := from + "-" + to;
            !IsDigits(t) && IsRange(t) && IndexOf(t, '-') == |from| && t[..|from|] == from && t[|from| + 1..] == to
  {
    var t := from + "-" + to;
    DigitsHaveNoOther(from, '-');
    assert t == from + ("-" + to);
    IndexOfFirst(from, '-', "-" + to);
    assert t[|from|] == '-' && !IsDigit(t[|from|]);
    assert t[..|from|] == from && t[|from| + 1..] == to;
  }

  lemma {:induction false} ItemIsRead(item: Item, i: int)
    requires ValidItem(item)
    ensures IsItem(ItemText(item)) && (ItemDenotes(ItemText(item), i) <==> Covers(item, i))
    ensures RunsOn(ItemText(item)) <==> NeverEnds(item)
  {
    if item.Range? {
      RangeText(item.from, item.to);
    }
  }

  ghost predicate Covered(items: seq<Item>, i: int)
    requires forall k :: 0 <= k < |items| ==> ValidItem(items[k])
  {
    exists k :: 0 <= k < |items| && Covers(items[k], i)
  }

  lemma {:induction false} CoveredIsDenoted(items: seq<Item>, i: int)
    requires forall k :: 0 <= k < |items| ==> ValidItem(items[k])
    ensures Denoted(Texts(items) + [""], i) <==> Covered(items, i)
  {
    var texts := Texts(items) + [""];
    if Covered(items, i) {
      var k :| 0 <= k < |items| && Covers(items[k], i);
      ItemIsRead(items[k], i);
      assert ItemDenotes(texts[k], i);
    }
    if Denoted(texts, i) {
      var k :| 0 <= k < |texts| && ItemDenotes(texts[k], i);
      if k < |items| {
        ItemIsRead(items[k], i);
      }
    }
  }

  /** A comma list lists the names of the registered numbers its items cover, in ascending order
      and each once, unless it has a range from 0 to 2^63 - 1 or beyond. */
  lemma {:induction false} CsvNamesInOrder(hlist: seq<Signature>, items: seq<Item>) returns (indices: seq<int>)
    requires |items| >= 1 && forall k :: 0 <= k < |items| ==> ValidItem(items[k])
    ensures var text := JoinWith(Texts(items), ',');
            && InOrder(hlist, indices, CsvNames(hlist, text))
            && OutcomeOf(text) == if exists k :: 0 <= k < |items| && NeverEnds(items[k]) then Endless else Listed
    ensures forall i :: i in indices <==> 0 <= i < |hlist| && Covered(items, i)
  {
    var texts := Texts(items);
    forall k | 0 <= k < |items|
      ensures IsItem(texts[k])
      ensures RunsOn(texts[k]) <==> NeverEnds(items[k])
    {
      ItemIsRead(items[k], 0);
    }
    ItemsAreRead(texts);
    var entries := texts + [""];
    assert forall k :: 0 <= k < |items| ==> entries[k] == texts[k];
    assert !RunsOn(entries[|items|]);
    indices := Selected(entries, |hlist|);
    SelectedIsAscending(entries, |hlist|);
    SelectedInRange(entries, |hlist|);
    NamesAreInOrder(hlist, indices);
    forall i
      ensures i in indices <==> 0 <= i < |hlist| && Covered(items, i)
    {
      CoveredIsDenoted(items, i);
    }
  }

  // ---------- doubled commas ----------

  ghost predicate NoDoubleComma(s: string) {
    forall i :: 0 <= i < |s| - 1 ==> !(s[i] == ',' && s[i + 1] == ',')
  }

  /** Of two commas in a row one is dropped, for the first such pair only. */
  lemma {:induction false} OneCommaIsDropped(a: string, b: string)
    requires NoDoubleComma(a + ",")
    ensures DropFirstDoubleComma(a + ",," + b) == a + "," + b
  {
    var s := a + ",," + b;
    if a == [] {
      assert s[1..] == "," + b;
    } else {
      var rest := a[1..];
      assert forall i :: 0 <= i < |rest + ","| ==> (rest + ",")[i] == (a + ",")[i + 1];
      OneCommaIsDropped(rest, b);
      assert s[1..] == rest + ",," + b;
      assert s[0] == (a + ",")[0] && s[1] == (a + ",")[1];
      assert [a[0]] + (rest + "," + b) == a + "," + b;
    }
  }

  lemma {:induction false} NoCommaIsDropped(s: string)
    requires NoDoubleComma(s)
    ensures DropFirstDoubleComma(s) == s
  {
    if |s| >= 2 {
      assert forall i :: 0 <= i < |s[1..]| ==> s[1..][i] == s[i + 1];
      NoCommaIsDropped(s[1..]);
      assert s == [s[0]] + s[1..];
    }
  }

  lemma {:induction false} LastCommaIsIgnored(hlist: seq<Signature>, list: string)
    requires NoDoubleComma(list + ",")
    ensures OutcomeOf(list + ",") == OutcomeOf(list) && CsvNames(hlist, list + ",") == CsvNames(hlist, list)
  {
    OneCommaIsDropped(list, "");
    NoCommaIsDropped(list + ",");
    assert list + "," + "," == list + ",," + "" && list + "," + "" == list + ",";
  }

  /** A list may have one comma at its end, or one doubled comma. */
  lemma {:induction false} DoubledCommaIsIgnored(hlist: seq<Signature>, a: string, b: string)
    requires NoDoubleComma(a + "," + b + ",")
    ensures OutcomeOf(a + ",," + b) == OutcomeOf(a + "," + b)
    ensures CsvNames(hlist, a + ",," + b) == CsvNames(hlist, a + "," + b)
  {
    var t := a + "," + b + ",";
    assert forall i :: 0 <= i < |a + ","| ==> (a + ",")[i] == t[i];
    OneCommaIsDropped(a, b + ",");
    NoCommaIsDropped(t);
    assert a + ",," + b + "," == a + ",," + (b + ",");
    assert t == a + "," + (b + ",");
  }
}
