/** The dump of a file that was put together from its parts (decode/cmd/mdlist.go): every slice
    the reader cuts out is one of these parts, in their order. */
module DumpLayout {
  import opened Bytes
  import opened Common
  import opened DumpReader
  import opened Layout
  import opened SignatureList
  import opened Sums
  import Text

  /** A record is its signatures, its exponent and its modulus. */
  type Record = seq<Bytes>

  datatype Encoded = Encoded(fileSize: nat, blockSize: nat, modSize: nat, name: Bytes, path: Bytes, hashList: Bytes,
                             keyText: string, fileSignatures: seq<Bytes>, records: seq<Record>)

  function AllRecords(records: seq<Record>, k: nat): seq<Bytes>
    requires k <= |records|
  {
    if k == 0 then [] else AllRecords(records, k - 1) + records[k - 1]
  }

  function HeadParts(f: Encoded): (parts: seq<Bytes>)
    ensures |parts| == 9
  {
    [Fixed(f.fileSize, FIELD_BYTES), Fixed(f.blockSize, FIELD_BYTES), Fixed(f.modSize, FIELD_BYTES),
     Fixed(|f.name|, FIELD_BYTES), Fixed(|f.path|, FIELD_BYTES), Fixed(|f.hashList|, FIELD_BYTES),
     f.path, f.name, f.hashList]
  }

  /** Six big-endian numbers of eight bytes, path, name, hash list, file signatures, records. */
  function Parts(f: Encoded): seq<Bytes> {
    HeadParts(f) + f.fileSignatures + AllRecords(f.records, |f.records|)
  }

  /** Bytes that spell a text. */
  ghost predicate Spells(bs: Bytes, text: string) {
    |bs| == |text| && forall i :: 0 <= i < |bs| ==> bs[i] as int == text[i] as int
  }

  /** Names with a colon between them; none at all for an empty list. */
  function NameText(names: seq<string>): string {
    if names == [] then "" else Text.JoinWith(names, ':')
  }

  ghost predicate PlainNames(m: map<string, nat>, names: seq<string>) {
    && "" !in m
    && forall i :: 0 <= i < |names| ==> names[i] in m && ':' !in names[i] && '-' !in names[i]
  }

  /** One signature for each name, of its registered size. */
  ghost predicate SignedAs(m: map<string, nat>, names: seq<string>, signatures: seq<Bytes>) {
    |signatures| == |names| && forall i :: 0 <= i < |names| ==> names[i] in m && |signatures[i]| == m[names[i]]
  }

  ghost predicate IsRecord(m: map<string, nat>, names: seq<string>, blockSize: nat, modSize: nat, record: Record) {
    && |record| == |names| + 2 && SignedAs(m, names, record[..|names|])
    && |record[|names|]| == (if blockSize <= 32 then 1 else 4) && |record[|names| + 1]| == (modSize + 7) / 8
  }

  /** A file as the reader expects it: what may follow the block names starts with a dash, and
      without block signatures there are no records. */
  ghost predicate WellFormed(m: map<string, nat>, f: Encoded, fileNames: seq<string>, blockNames: seq<string>) {
    && f.fileSize < Pow2(64) && f.blockSize < Pow2(64) && f.modSize < Pow2(64)
    && |f.name| < Pow2(64) && |f.path| < Pow2(64) && |f.hashList| < Pow2(64)
    && PlainNames(m, fileNames) && PlainNames(m, blockNames)
    && (f.keyText == "" || f.keyText[0] == '-')
    && Spells(f.hashList, NameText(fileNames) + "-" + (NameText(blockNames) + f.keyText))
    && SignedAs(m, fileNames, f.fileSignatures)
    && (blockNames == [] ==> f.records == [])
    && (blockNames != [] ==>
          f.blockSize > 0 && |f.records| == (f.fileSize + f.blockSize - 1) / f.blockSize)
    && forall k :: 0 <= k < |f.records| ==> IsRecord(m, blockNames, f.blockSize, f.modSize, f.records[k])
  }

  // ---------- the header ----------

  lemma {:induction false} LengthsJoined(a: seq<Bytes>, b: seq<Bytes>)
    ensures Lengths(a + b) == Lengths(a) + Lengths(b)
  {
  }

  /** The numbers of the header in their order. */
  function NumberOf(f: Encoded, i: nat): nat {
    match i
    case 0 => f.fileSize
    case 1 => f.blockSize
    case 2 => f.modSize
    case 3 => |f.name|
    case 4 => |f.path|
    case _ => |f.hashList|
  }

  lemma {:induction false} HeadIsNumbers(f: Encoded, i: nat)
    requires i < 6
    ensures HeadParts(f)[i] == Fixed(NumberOf(f, i), FIELD_BYTES)
  {
  }

  /** Field i of the header is the i-th of its numbers. */
  lemma {:induction false} FieldIs(f: Encoded, bytes: Bytes, i: nat)
    requires bytes == Join(Parts(f)) && i < 6 && NumberOf(f, i) < Pow2(64)
    ensures |bytes| >= 48 && Field(bytes, i) == NumberOf(f, i)
  {
    FieldOffset(f, i);
    FieldOffset(f, 5);
    HeadIsNumbers(f, i);
    NumberAt(Parts(f), i, bytes, NumberOf(f, i));
    PartStands(Parts(f), 5);
  }

  lemma {:induction false} NumberAt(parts: seq<Bytes>, i: nat, bytes: Bytes, v: nat)
    requires i < 6 && i < |parts| && parts[i] == Fixed(v, FIELD_BYTES) && v < Pow2(64) && Offset(parts, i) == 8 * i
    requires bytes == Join(parts)
    ensures 8 * i + 8 <= |bytes| && (|bytes| >= 48 ==> Field(bytes, i) == v)
  {
    PartStands(parts, i);
    ValueOfFixed(v, FIELD_BYTES);
  }

  lemma {:induction false} FieldOffset(f: Encoded, i: nat)
    requires i < 6
    ensures Parts(f)[i] == HeadParts(f)[i] && |Parts(f)[i]| == 8
    ensures Offset(Parts(f), i) == 8 * i
  {
    if i != 0 {
      FieldOffset(f, i - 1);
      NextOffset(Parts(f), i - 1);
    }
  }

  /** The numbers of the header are those of the file. */
  lemma {:induction false} FieldsAre(m: map<string, nat>, f: Encoded, fileNames: seq<string>, blockNames: seq<string>,
                                     bytes: Bytes)
    requires WellFormed(m, f, fileNames, blockNames) && bytes == Join(Parts(f))
    ensures |bytes| >= 48
    ensures Field(bytes, 0) == f.fileSize && Field(bytes, 1) == f.blockSize && Field(bytes, 2) == f.modSize
    ensures NameWidths(bytes) == Lengths(HeadParts(f))
  {
    FieldIs(f, bytes, 0); FieldIs(f, bytes, 1); FieldIs(f, bytes, 2);
    FieldIs(f, bytes, 3); FieldIs(f, bytes, 4); FieldIs(f, bytes, 5);
    HeadLengths(f);
  }

  lemma {:induction false} HeadLengths(f: Encoded)
    ensures Lengths(HeadParts(f)) == [8, 8, 8, 8, 8, 8, |f.path|, |f.name|, |f.hashList|]
  {
  }

  // ---------- the hash list ----------

  lemma {:induction false} NamesWithout(names: seq<string>, c: char)
    requires c != ':' && forall i :: 0 <= i < |names| ==> c !in names[i]
    ensures c !in NameText(names)
  {
    if |names| > 1 {
      assert forall i :: 0 <= i < |names[1..]| ==> names[1..][i] == names[i + 1];
      NamesWithout(names[1..], c);
      assert NameText(names) == names[0] + [':'] + NameText(names[1..]);
    }
  }

  lemma SpelledText(bs: Bytes, text: string)
    requires Spells(bs, text)
    ensures Chars(bs) == text
  {
  }

  lemma {:induction false} HashListAt(f: Encoded, bytes: Bytes)
    requires bytes == Join(Parts(f)) && |bytes| >= 48 && NameWidths(bytes) == Lengths(HeadParts(f))
    ensures Total(NameWidths(bytes), 8) <= Total(NameWidths(bytes), 9) <= |bytes|
    ensures bytes[Total(NameWidths(bytes), 8)..Total(NameWidths(bytes), 9)] == f.hashList
  {
    var parts := Parts(f);
    LengthsJoined(HeadParts(f), f.fileSignatures + AllRecords(f.records, |f.records|));
    assert parts == HeadParts(f) + (f.fileSignatures + AllRecords(f.records, |f.records|));
    TotalExtends(Lengths(HeadParts(f)), Lengths(f.fileSignatures + AllRecords(f.records, |f.records|)), 8);
    TotalExtends(Lengths(HeadParts(f)), Lengths(f.fileSignatures + AllRecords(f.records, |f.records|)), 9);
    TotalOfLengths(parts, 8);
    TotalOfLengths(parts, 9);
    PartStands(parts, 8);
    NextOffset(parts, 8);
    assert parts[8] == f.hashList;
  }

  lemma {:induction false} HashListsAre(m: map<string, nat>, f: Encoded, fileNames: seq<string>,
                                        blockNames: seq<string>, bytes: Bytes)
    requires WellFormed(m, f, fileNames, blockNames) && bytes == Join(Parts(f))
    requires |bytes| >= 48 && NameWidths(bytes) == Lengths(HeadParts(f))
    ensures Total(NameWidths(bytes), 9) <= |bytes|
    ensures |HashLists(bytes)| >= 2
    ensures HashLists(bytes)[0] == NameText(fileNames) && HashLists(bytes)[1] == NameText(blockNames)
  {
    HashListAt(f, bytes);
    SpelledText(f.hashList, NameText(fileNames) + "-" + (NameText(blockNames) + f.keyText));
    NamesWithout(fileNames, '-');
    NamesWithout(blockNames, '-');
    Text.SplitFirst(NameText(fileNames), '-', NameText(blockNames) + f.keyText);
    FirstPart(NameText(blockNames), f.keyText);
  }

  lemma {:induction false} FirstPart(a: string, rest: string)
    requires '-' !in a && (rest == "" || rest[0] == '-')
    ensures Text.Split(a + rest, '-')[0] == a
  {
    Text.IndexOfFirst(a, '-', rest);
    assert (a + rest)[..|a|] == a;
    assert rest == "" ==> a + rest == a;
  }

  // ---------- the widths ----------

  lemma {:induction false} SizesAre(m: map<string, nat>, names: seq<string>, signatures: seq<Bytes>, k: nat)
    requires SignedAs(m, names, signatures) && k <= |names|
    ensures SizesOf(m, names, k) == Lengths(signatures)[..k]
  {
    if k != 0 {
      SizesAre(m, names, signatures, k - 1);
      assert Lengths(signatures)[..k] == Lengths(signatures)[..k - 1] + [|signatures[k - 1]|];
    }
  }

  lemma {:induction false} ListedSizesAre(m: map<string, nat>, names: seq<string>, signatures: seq<Bytes>)
    requires PlainNames(m, names) && SignedAs(m, names, signatures)
    ensures ListedSizes(m, NameText(names)) == Lengths(signatures)
  {
    if names == [] {
      assert Text.Split("", ':') == [""];
      assert SizesOf(m, [""], 1) == SizesOf(m, [""], 0);
    } else {
      Text.SplitOfJoin(names, ':');
      SizesAre(m, names, signatures, |names|);
      assert Lengths(signatures)[..|names|] == Lengths(signatures);
    }
  }

  lemma {:induction false} RecordWidthsAre(m: map<string, nat>, names: seq<string>, blockSize: nat, modSize: nat,
                                           record: Record)
    requires PlainNames(m, names) && IsRecord(m, names, blockSize, modSize, record)
    ensures RecordWidths(ListedSizes(m, NameText(names)), blockSize, modSize) == Lengths(record)
  {
    var n := |names|;
    ListedSizesAre(m, names, record[..n]);
    ModByteSizeRoundsUp(modSize);
    assert record == record[..n] + [record[n], record[n + 1]];
    LengthsJoined(record[..n], [record[n], record[n + 1]]);
    assert Lengths([record[n], record[n + 1]]) == [|record[n]|, |record[n + 1]|];
  }

  lemma {:induction false} RepeatedWidths(m: map<string, nat>, f: Encoded, names: seq<string>, k: nat)
    requires PlainNames(m, names) && k <= |f.records|
    requires forall k :: 0 <= k < |f.records| ==> IsRecord(m, names, f.blockSize, f.modSize, f.records[k])
    ensures Repeat(RecordWidths(ListedSizes(m, NameText(names)), f.blockSize, f.modSize), k)
         == Lengths(AllRecords(f.records, k))
  {
    if k != 0 {
      RepeatedWidths(m, f, names, k - 1);
      RecordWidthsAre(m, names, f.blockSize, f.modSize, f.records[k - 1]);
      LengthsJoined(AllRecords(f.records, k - 1), f.records[k - 1]);
    }
  }

  lemma {:induction false} NameTextIsEmpty(m: map<string, nat>, names: seq<string>)
    requires PlainNames(m, names)
    ensures NameText(names) == "" <==> names == []
  {
    if names != [] {
      assert names[0] != "";
    }
  }

  lemma {:induction false} RecordsAre(m: map<string, nat>, f: Encoded, fileNames: seq<string>, blockNames: seq<string>,
                                      bytes: Bytes)
    requires WellFormed(m, f, fileNames, blockNames) && DumpReader.Readable(bytes)
    requires HashLists(bytes)[1] == NameText(blockNames)
    requires Field(bytes, 0) == f.fileSize && Field(bytes, 1) == f.blockSize
    ensures Records(bytes) == |f.records|
  {
    NameTextIsEmpty(m, blockNames);
    if blockNames != [] {
      BlocksRoundUp(f.fileSize, f.blockSize);
    }
  }

  /** The reader can read the file and announces exactly the lengths of its parts. */
  lemma {:induction false} WidthsAre(m: map<string, nat>, f: Encoded, fileNames: seq<string>, blockNames: seq<string>,
                                     bytes: Bytes)
    requires WellFormed(m, f, fileNames, blockNames) && bytes == Join(Parts(f))
    ensures DumpReader.Readable(bytes) && Records(bytes) == |f.records|
    ensures AllWidths(m, bytes) == Lengths(Parts(f))
  {
    FieldsAre(m, f, fileNames, blockNames, bytes);
    HashListsAre(m, f, fileNames, blockNames, bytes);
    NameTextIsEmpty(m, blockNames);
    RecordsAre(m, f, fileNames, blockNames, bytes);
    ListedSizesAre(m, fileNames, f.fileSignatures);
    RepeatedWidths(m, f, blockNames, |f.records|);
    ThreeLengths(HeadParts(f), f.fileSignatures, AllRecords(f.records, |f.records|));
  }

  lemma {:induction false} ThreeLengths(a: seq<Bytes>, b: seq<Bytes>, c: seq<Bytes>)
    ensures Lengths(a + b + c) == Lengths(a) + Lengths(b) + Lengths(c)
  {
    LengthsJoined(a, b);
    LengthsJoined(a + b, c);
  }

  // ---------- the slices ----------

  /** Cutting what was joined at the lengths of its parts gives these parts back. */
  lemma {:induction false} CutGivesParts(parts: seq<Bytes>, i: nat)
    requires i < |parts|
    ensures var cut := Cut(Lengths(parts), |parts|)[i];
            cut.start <= cut.end <= |Join(parts)| && Join(parts)[cut.start..cut.end] == parts[i]
  {
    CutAt(Lengths(parts), |parts|, i);
    TotalOfLengths(parts, i);
    TotalOfLengths(parts, i + 1);
    PartStands(parts, i);
  }

  /** Whatever the mixture of parts, the dump of the file succeeds, there is one slice for each
      part, and it shows exactly that part; the last one ends where the file ends. */
  lemma {:induction false} DumpShowsParts(m: map<string, nat>, f: Encoded, fileNames: seq<string>,
                                          blockNames: seq<string>, bytes: Bytes, i: nat)
    requires WellFormed(m, f, fileNames, blockNames) && bytes == Join(Parts(f)) && i < |Parts(f)|
    ensures DumpReader.Readable(bytes)
    ensures var widths := AllWidths(m, bytes);
            && Total(widths, |widths|) == |bytes| && |widths| == |Parts(f)|
            && var slice := Cut(widths, |widths|)[i];
               slice.start <= slice.end <= |bytes| && bytes[slice.start..slice.end] == Parts(f)[i]
  {
    WidthsAre(m, f, fileNames, blockNames, bytes);
    CutGivesParts(Parts(f), i);
    TotalOfLengths(Parts(f), |Parts(f)|);
    JoinLength(Parts(f));
  }
}
