/** The signature registry of the C++ programs and the signature lists of an archive: how a
    list of numbers is deduplicated and validated, written as names and read back
    (mdCore/mdHashContextList.h, mdCore/mdCommon.h). */
module HashRegistry {
  import opened Bytes
  import opened Wrappers
  import opened Dedup
  import Common
  import opened Sums

  /** written is the number of key bytes that writeKeyList really writes. */
  datatype Row = Row(name: Bytes, blocksize: nat, keysize: nat, written: nat)

  type Registry = seq<Row>

  const COLON: byte := 58

  predicate ValidId(reg: Registry, id: int) {
    1 <= id <= |reg|
  }

  predicate AllValid(reg: Registry, ids: seq<int>) {
    forall i :: 0 <= i < |ids| ==> ValidId(reg, ids[i])
  }

  function RowOf(reg: Registry, id: int): Row
    requires ValidId(reg, id)
  {
    reg[id - 1]
  }

  ghost predicate ValidRegistry(reg: Registry) {
    && (forall i :: 0 <= i < |reg| ==> reg[i].name != [] && COLON !in reg[i].name)
    && (forall i, j :: 0 <= i < j < |reg| ==> reg[i].name != reg[j].name)
  }

  ghost predicate ValidList(reg: Registry, ids: seq<nat>) {
    AllValid(reg, ids) && NoRepeats(ids)
  }

  // ---------- lists of numbers ----------

  /** The valid ones of the first k numbers. */
  function KeepValid(reg: Registry, v: seq<int>, k: nat): (ids: seq<nat>)
    requires k <= |v|
  {
    if k == 0 then []
    else KeepValid(reg, v, k - 1) + (if ValidId(reg, v[k - 1]) then [v[k - 1]] else [])
  }

  /** The signature list for a list of numbers. */
  function VectorOf(reg: Registry, v: seq<int>): seq<nat> {
    var u := FirstOccurrences(v, |v|);
    KeepValid(reg, u, |u|)
  }

  lemma {:induction false} KeepValidElements(reg: Registry, v: seq<int>, k: nat)
    requires k <= |v| && NoRepeats(v)
    ensures ValidList(reg, KeepValid(reg, v, k))
    ensures forall x :: x in KeepValid(reg, v, k) ==> x in v[..k] && ValidId(reg, x)
    ensures forall i :: 0 <= i < k && ValidId(reg, v[i]) ==> v[i] in KeepValid(reg, v, k)
  {
    if k != 0 {
      KeepValidElements(reg, v, k - 1);
      assert v[..k] == v[..k - 1] + [v[k - 1]];
    }
  }

  /** The list holds exactly the valid numbers asked for, each once. */
  lemma {:induction false} VectorIsValid(reg: Registry, v: seq<int>)
    ensures ValidList(reg, VectorOf(reg, v))
    ensures forall x: int :: x in VectorOf(reg, v) <==> x in v && ValidId(reg, x)
  {
    var u := FirstOccurrences(v, |v|);
    FirstOccurrencesProperties(v, |v|);
    KeepValidElements(reg, u, |u|);
    assert v[..|v|] == v && u[..|u|] == u;
    forall x: int | x in v && ValidId(reg, x)
      ensures x in VectorOf(reg, v)
    {
      assert x in u;
      var i :| 0 <= i < |u| && u[i] == x;
    }
  }

  lemma {:induction false} UnknownAreDropped(reg: Registry, v: seq<int>)
    requires forall x :: x in v ==> !ValidId(reg, x)
    ensures VectorOf(reg, v) == []
  {
    var ids := VectorOf(reg, v);
    VectorIsValid(reg, v);
    if ids != [] {
      var x := SomeElement(ids);
    }
  }

  lemma SomeElement(ids: seq<nat>) returns (x: nat)
    requires ids != []
    ensures x in ids
  {
    x := ids[0];
  }

  lemma {:induction false} KeepValidIsIdentity(reg: Registry, ids: seq<nat>, k: nat)
    requires ValidList(reg, ids) && k <= |ids|
    ensures KeepValid(reg, ids, k) == ids[..k]
  {
    if k != 0 {
      KeepValidIsIdentity(reg, ids, k - 1);
      assert ids[..k] == ids[..k - 1] + [ids[k - 1]];
    }
  }

  /** A valid list is kept as it is. */
  lemma {:induction false} VectorOfValid(reg: Registry, ids: seq<nat>)
    requires ValidList(reg, ids)
    ensures VectorOf(reg, ids) == ids
  {
    NoRepeatsUnchanged(ids, |ids|);
    KeepValidIsIdentity(reg, ids, |ids|);
    assert ids[..|ids|] == ids;
  }

  /** Removes repeated numbers in place; returns the new length. */
  method RemoveDup(num: array<int>) returns (pos: nat)
    modifies num
    ensures pos <= num.Length && num[..pos] == FirstOccurrences(old(num[..]), num.Length)
  {
    var seen: set<int> := {};
    pos := 0;
    var i := 0;
    ghost var before := num[..];
    while i < num.Length
      invariant 0 <= pos <= i <= num.Length
      invariant num[..pos] == FirstOccurrences(before, i) && num[i..] == before[i..]
      invariant forall x :: x in seen <==> x in num[..pos]
    {
      var v := num[i];
      assert v == num[i..][0] == before[i];
      if v !in seen {
        seen := seen + {v};
        num[pos] := v;
        pos := pos + 1;
        assert num[..pos] == num[..pos - 1] + [v];
      }
      i := i + 1;
      assert num[i..] == before[i - 1..][1..];
    }
  }

  method SetVectorHL(reg: Registry, v: array<int>) returns (hashlistvt: seq<nat>)
    modifies v
    ensures hashlistvt == VectorOf(reg, old(v[..]))
  {
    var n := RemoveDup(v);
    hashlistvt := [];
    var i := 0;
    while i < n
      invariant 0 <= i <= n
      invariant hashlistvt == KeepValid(reg, v[..n], i)
    {
      if v[i] <= |reg| && v[i] > 0 {
        hashlistvt := hashlistvt + [v[i]];
      }
      i := i + 1;
    }
  }

  // ---------- lists of names ----------

  function JoinNames(reg: Registry, ids: seq<nat>): Bytes
    requires AllValid(reg, ids)
  {
    if ids == [] then []
    else if |ids| == 1 then RowOf(reg, ids[0]).name
    else RowOf(reg, ids[0]).name + [COLON] + JoinNames(reg, ids[1..])
  }

  /** Length of the part before the first colon. */
  function ToColon(s: Bytes): (n: nat)
    ensures n <= |s| && COLON !in s[..n] && (n < |s| ==> s[n] == COLON)
  {
    if s == [] || s[0] == COLON then 0
    else
      var n := 1 + ToColon(s[1..]);
      assert s[..n] == [s[0]] + s[1..][..n - 1];
      n
  }

  /** The pieces std::getline returns for the delimiter ':'. */
  function Tokens(s: Bytes): seq<Bytes> {
    if s == [] then []
    else
      var n := ToColon(s);
      [s[..n]] + (if n < |s| then Tokens(s[n + 1..]) else [])
  }

  /** The map from names to row numbers: the last of the first k rows with the name. */
  function Lookup(reg: Registry, name: Bytes, k: nat): (r: Option<nat>)
    requires k <= |reg|
    ensures r.Some? ==> r.value < k && reg[r.value].name == name
    ensures r.None? ==> forall i :: 0 <= i < k ==> reg[i].name != name
  {
    if k == 0 then None
    else if reg[k - 1].name == name then Some(k - 1)
    else Lookup(reg, name, k - 1)
  }

  /** The numbers of the known names among the first k tokens. */
  function NumbersOf(reg: Registry, tokens: seq<Bytes>, k: nat): seq<int>
    requires k <= |tokens|
  {
    if k == 0 then []
    else
      var hashnum := Lookup(reg, tokens[k - 1], |reg|);
      if hashnum.Some? then NumbersOf(reg, tokens, k - 1) + [hashnum.value + 1] else NumbersOf(reg, tokens, k - 1)
  }

  function AllNumbersOf(reg: Registry, tokens: seq<Bytes>): seq<int> {
    NumbersOf(reg, tokens, |tokens|)
  }

  function VectorOfString(reg: Registry, s: Bytes): seq<nat> {
    VectorOf(reg, AllNumbersOf(reg, Tokens(s)))
  }

  method SetVectorHLString(reg: Registry, hashlist: Bytes) returns (hashlistvt: seq<nat>)
    ensures hashlistvt == VectorOfString(reg, hashlist)
  {
    var v := CollectNumbers(reg, Tokens(hashlist));
    hashlistvt := SetVectorHL(reg, v);
  }

  /** The loop over the tokens. */
  method CollectNumbers(reg: Registry, tokens: seq<Bytes>) returns (v: array<int>)
    ensures fresh(v) && v[..] == AllNumbersOf(reg, tokens)
  {
    var numbers: seq<int> := [];
    var i := 0;
    while i < |tokens|
      invariant 0 <= i <= |tokens| && numbers == NumbersOf(reg, tokens, i)
    {
      var hashnum := Lookup(reg, tokens[i], |reg|);
      if hashnum.Some? {
        numbers := numbers + [hashnum.value + 1];
      }
      i := i + 1;
    }
    v := new int[|numbers|](i requires 0 <= i < |numbers| => numbers[i]);
    assert v[..] == numbers;
  }

  lemma {:induction false} FirstToken(name: Bytes, rest: Bytes)
    requires name != [] && COLON !in name
    ensures Tokens(name + [COLON] + rest) == [name] + Tokens(rest)
    ensures Tokens(name) == [name]
  {
    ToColonOf(name, [COLON] + rest);
    ToColonOf(name, []);
    var s := name + [COLON] + rest;
    assert s == name + ([COLON] + rest) && name == name + [];
    assert s[..|name|] == name && s[|name| + 1..] == rest;
  }

  lemma {:induction false} ToColonOf(name: Bytes, rest: Bytes)
    requires COLON !in name && (rest == [] || rest[0] == COLON)
    ensures ToColon(name + rest) == |name|
  {
    if name == [] {
      assert name + rest == rest;
    } else {
      ToColonOf(name[1..], rest);
      assert (name + rest)[1..] == name[1..] + rest;
      assert name[0] in name;
    }
  }

  lemma {:induction false} LookupOfName(reg: Registry, id: nat, k: nat)
    requires ValidRegistry(reg) && ValidId(reg, id) && id <= k <= |reg|
    ensures Lookup(reg, RowOf(reg, id).name, k) == Some(id - 1)
  {
    if k > id {
      LookupOfName(reg, id, k - 1);
    }
  }

  function NamesOf(reg: Registry, ids: seq<nat>): (names: seq<Bytes>)
    requires AllValid(reg, ids)
    ensures |names| == |ids|
  {
    seq(|ids|, i requires 0 <= i < |ids| => RowOf(reg, ids[i]).name)
  }

  lemma {:induction false} TokensOfNames(reg: Registry, ids: seq<nat>)
    requires ValidRegistry(reg) && AllValid(reg, ids)
    ensures Tokens(JoinNames(reg, ids)) == NamesOf(reg, ids)
  {
    if ids != [] {
      var name, rest := RowOf(reg, ids[0]).name, ids[1..];
      assert NamesOf(reg, ids) == [name] + NamesOf(reg, rest);
      if rest == [] {
        FirstToken(name, []);
        assert NamesOf(reg, rest) == [];
      } else {
        TokensOfNames(reg, rest);
        FirstToken(name, JoinNames(reg, rest));
      }
    }
  }

  lemma {:induction false} NumbersOfNames(reg: Registry, ids: seq<nat>, k: nat)
    requires ValidRegistry(reg) && AllValid(reg, ids) && k <= |ids|
    ensures NumbersOf(reg, NamesOf(reg, ids), k) == ids[..k]
  {
    if k != 0 {
      NumbersOfNames(reg, ids, k - 1);
      LookupOfName(reg, ids[k - 1], |reg|);
      assert ids[..k] == ids[..k - 1] + [ids[k - 1]];
    }
  }

  /** A signature list survives being written as a string of names and read back. */
  lemma {:induction false} NamesRoundTrip(reg: Registry, ids: seq<nat>)
    requires ValidRegistry(reg) && ValidList(reg, ids)
    ensures VectorOfString(reg, JoinNames(reg, ids)) == ids
  {
    TokensOfNames(reg, ids);
    NumbersOfNames(reg, ids, |ids|);
    assert ids[..|ids|] == ids;
    VectorOfValid(reg, ids);
  }

  /** The k-th name stands behind the names and colons before it, and a byte 58 stands behind it
      unless it is the last. */
  ghost predicate NameStands(s: Bytes, names: seq<Bytes>, k: nat)
    requires k < |names|
  {
    var pos := Common.Offset(names, k) + k;
    && |s| == Common.Offset(names, |names|) + |names| - 1
    && pos + |names[k]| + (if k == |names| - 1 then 0 else 1) <= |s| && s[pos..pos + |names[k]|] == names[k]
    && (k < |names| - 1 ==> s[pos + |names[k]|] == 58)
  }

  lemma {:induction false} NameStandsBehind(names: seq<Bytes>, s: Bytes, k: nat)
    requires 1 < |names| && k < |names| - 1 && NameStands(s, names[1..], k)
    ensures NameStands(names[0] + [58] + s, names, k + 1)
  {
    var front := names[0] + [58];
    var pos := Common.Offset(names[1..], k) + k;
    Common.OffsetOfTail(names, |names|);
    Common.OffsetOfTail(names, k + 1);
    assert names[1..][k] == names[k + 1];
    assert (front + s)[|front| + pos..|front| + pos + |names[k + 1]|] == s[pos..pos + |names[k + 1]|];
  }

  lemma {:induction false} FirstNameStands(names: seq<Bytes>, s: Bytes)
    requires 1 < |names| && NameStands(s, names[1..], 0)
    ensures NameStands(names[0] + [58] + s, names, 0)
  {
    Common.OffsetOfTail(names, |names|);
    assert (names[0] + [58] + s)[0..|names[0]|] == names[0];
  }

  /** The string of names is laid out like that. */
  lemma {:induction false} NamesLayout(reg: Registry, ids: seq<nat>, k: nat)
    requires AllValid(reg, ids) && k < |ids|
    ensures NamesOf(reg, ids)[k] == reg[ids[k] - 1].name
    ensures NameStands(JoinNames(reg, ids), NamesOf(reg, ids), k)
  {
    var names := NamesOf(reg, ids);
    assert Common.Offset(names, 1) == Common.Offset(names, 0) + |names[0]|;
    if |ids| > 1 {
      NextNames(reg, ids);
      NamesLayout(reg, ids[1..], if k == 0 then 0 else k - 1);
      if k == 0 {
        FirstNameStands(names, JoinNames(reg, ids[1..]));
      } else {
        NameStandsBehind(names, JoinNames(reg, ids[1..]), k - 1);
      }
    }
  }

  lemma NextNames(reg: Registry, ids: seq<nat>)
    requires AllValid(reg, ids) && |ids| > 1
    ensures JoinNames(reg, ids) == RowOf(reg, ids[0]).name + [58] + JoinNames(reg, ids[1..])
    ensures NamesOf(reg, ids[1..]) == NamesOf(reg, ids)[1..]
  {
  }

  // ---------- sizes ----------

  function BlockSizes(reg: Registry, ids: seq<nat>): (r: seq<nat>)
    requires AllValid(reg, ids)
    ensures |r| == |ids|
  {
    seq(|ids|, i requires 0 <= i < |ids| => RowOf(reg, ids[i]).blocksize)
  }

  function KeySizes(reg: Registry, ids: seq<nat>): (r: seq<nat>)
    requires AllValid(reg, ids)
    ensures |r| == |ids|
  {
    seq(|ids|, i requires 0 <= i < |ids| => RowOf(reg, ids[i]).keysize)
  }

  function WrittenKeySizes(reg: Registry, ids: seq<nat>): (r: seq<nat>)
    requires AllValid(reg, ids)
    ensures |r| == |ids|
  {
    seq(|ids|, i requires 0 <= i < |ids| => RowOf(reg, ids[i]).written)
  }

  /** calcBlockSize and calcBlockKeySize: a running sum over the list. */
  method CalcSize(sizes: seq<nat>) returns (sum: nat)
    ensures sum == Total(sizes, |sizes|)
  {
    sum := 0;
    var i := 0;
    while i < |sizes|
      invariant 0 <= i <= |sizes| && sum == Total(sizes, i)
    {
      sum := sum + sizes[i];
      i := i + 1;
    }
  }
}
