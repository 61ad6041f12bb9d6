/** Signature key lists of the Go programs (SetHashListKey in
    decode/mdHashContextList/mdHashContextList.go): defaults, accepted keys, padding, and the
    list that is printed back. */
module KeyList {
  import opened Text

  const DEFAULT_KEY := "LomaLindaSanSerento9000"
  const DEFAULT_HW_KEY := "000102030405060708090a0b0cff0e0f" + "101112131415161718191a1b1c1d1e1f"
  const DEFAULT_SIP_KEY := "000102030405060708090a0b0c0d0e0f"
  const HW_CHARS: nat := 64
  const SIP_CHARS: nat := 32
  const BLAKE_CHARS: nat := 16

  type Keys = map<string, string>

  /** How the key of a signature is treated. */
  datatype Kind = Free | Blake | Padded(width: nat) | Unknown

  const FREE: set<string> := {
    "aes8", "ax1", "ax2", "ct64", "fh32", "fh64", "jn64", "mar32", "me32", "me64", "me128", "mm32", "murmur3",
    "spk32", "spk64", "t1ha", "xxh32", "xxhash", "wy"
  }
  const BLAKE: set<string> := { "blake2s_128", "blake2s_256" }
  const HIGHWAY: set<string> := { "hw32", "hw64", "hw128", "hw256" }
  const SIPHASH: set<string> := { "sip64", "sip128" }

  function KindOf(sig: string): Kind {
    if sig in FREE then Free
    else if sig in BLAKE then Blake
    else if sig in HIGHWAY then Padded(HW_CHARS)
    else if sig in SIPHASH then Padded(SIP_CHARS)
    else Unknown
  }

  function Defaults(): Keys {
    map[
      "default" := DEFAULT_KEY, "aes8" := "99123312", "ax1" := "991209123091283", "ax2" := "9881223091283",
      "blake2s_128" := DEFAULT_KEY, "blake2s_256" := DEFAULT_KEY, "ct64" := "111111222",
      "fh32" := "909921232221", "fh64" := "909921232221",
      "hw32" := DEFAULT_HW_KEY, "hw64" := DEFAULT_HW_KEY, "hw128" := DEFAULT_HW_KEY, "hw256" := DEFAULT_HW_KEY,
      "jn64" := "132200231", "mar32" := "191203221", "me32" := "11203221", "me64" := "6660322", "me128" := "9920322",
      "met64" := "7319920322", "mm32" := "1120322", "murmur3" := "1120322",
      "sip64" := DEFAULT_SIP_KEY, "sip128" := DEFAULT_SIP_KEY, "spk32" := "1238821", "spk64" := "7072112122",
      "t1ha" := "90112122", "xxh32" := "99123312", "xxhash" := "99123312"
    ]
  }

  /** fmt.Sprintf("%0<width>s"); which character pads depends on the Go release. */
  function Pad(key: string, width: nat, pad: char): (r: string)
    ensures |r| == if |key| < width then width else |key|
  {
    if |key| < width then seq(width - |key|, i => pad) + key else key
  }

  /** The key after an entry for a signature of the kind: keys of unsuitable length leave the
      old one in place. */
  function Accepted(kind: Kind, previous: string, key: string, pad: char): string {
    match kind
    case Free => key
    case Blake => if |key| >= BLAKE_CHARS then key else previous
    case Padded(width) =>
      if |key| == width then key else if 1 < |key| < width then Pad(key, width, pad) else previous
    case Unknown => previous
  }

  datatype State = State(keys: Keys, result: string)

  function Lookup(keys: Keys, sig: string): string {
    if sig in keys then keys[sig] else ""
  }

  /** One entry of the list; anything but signature:key is passed over. */
  function Enter(s: State, entry: string, pad: char): State {
    var res := Split(entry, ':');
    if |res| != 2 || KindOf(res[0]).Unknown? then s
    else
      var key := Accepted(KindOf(res[0]), Lookup(s.keys, res[0]), res[1], pad);
      State(s.keys[res[0] := key], s.result + res[0] + ":" + key + ",")
  }

  function EnterAll(start: Keys, entries: seq<string>, pad: char, k: nat): State
    requires k <= |entries|
  {
    if k == 0 then State(start, "") else Enter(EnterAll(start, entries, pad, k - 1), entries[k - 1], pad)
  }

  /** Key map and printed list for a key list. */
  function KeysFor(keylist: string, pad: char): State {
    var entries := Split(keylist + ",", ',');
    EnterAll(Defaults(), entries, pad, |entries|)
  }

  // ---------- what holds after every entry ----------

  predicate Clean(s: string) {
    ',' !in s && ':' !in s
  }

  predicate Suits(kind: Kind, key: string) {
    match kind
    case Free => true
    case Blake => |key| >= BLAKE_CHARS
    case Padded(width) => |key| == width
    case Unknown => true
  }

  /** Keys have no separators. */
  ghost predicate AllClean(keys: Keys) {
    forall sig :: sig in keys ==> Clean(keys[sig])
  }

  /** Every signature has a key of the length it needs. */
  ghost predicate AllSuit(keys: Keys) {
    forall sig :: Suits(KindOf(sig), Lookup(keys, sig))
  }

  lemma LongKeysAreClean()
    ensures Clean(DEFAULT_KEY) && Clean(DEFAULT_HW_KEY) && Clean(DEFAULT_SIP_KEY)
  {
    CleanByIndex(DEFAULT_KEY);
    CleanByIndex(DEFAULT_HW_KEY);
    CleanByIndex(DEFAULT_SIP_KEY);
  }

  lemma CleanByIndex(s: string)
    requires forall i :: 0 <= i < |s| ==> s[i] != ',' && s[i] != ':'
    ensures Clean(s)
  {
  }

  lemma DefaultsAreClean()
    ensures AllClean(Defaults())
  {
    LongKeysAreClean();
  }

  lemma DefaultsSuit()
    ensures AllSuit(Defaults())
  {
  }

  lemma {:induction false} AcceptedStays(kind: Kind, previous: string, key: string, pad: char)
    requires kind.Padded? ==> kind.width > 1
    requires Suits(kind, previous)
    ensures var new_ := Accepted(kind, previous, key, pad);
            Suits(kind, new_) && (!kind.Unknown? ==> Accepted(kind, previous, new_, pad) == new_)
  {
  }

  lemma {:induction false} AcceptedIsClean(kind: Kind, previous: string, key: string, pad: char)
    requires Clean(previous) && Clean(key) && Clean([pad])
    ensures Clean(Accepted(kind, previous, key, pad))
  {
    if kind.Padded? && |key| < kind.width {
      var zeros := seq(kind.width - |key|, i => pad);
      assert pad in [pad];
      CleanByIndex(zeros);
    }
  }

  lemma {:induction false} EntryParts(entry: string)
    requires ',' !in entry && |Split(entry, ':')| == 2
    ensures Clean(Split(entry, ':')[0]) && Clean(Split(entry, ':')[1])
    ensures entry == Split(entry, ':')[0] + ":" + Split(entry, ':')[1]
  {
    var res := Split(entry, ':');
    SplitParts(entry, ':');
    JoinOfSplit(entry, ':');
    assert JoinWith(res[1..], ':') == res[1];
  }

  lemma {:induction false} EnterKeepsLengths(s: State, entry: string, pad: char)
    requires AllSuit(s.keys)
    ensures AllSuit(Enter(s, entry, pad).keys)
  {
    var res := Split(entry, ':');
    if |res| == 2 && !KindOf(res[0]).Unknown? {
      assert Suits(KindOf(res[0]), Lookup(s.keys, res[0]));
      AcceptedStays(KindOf(res[0]), Lookup(s.keys, res[0]), res[1], pad);
    }
  }

  lemma {:induction false} KeyLengths(start: Keys, entries: seq<string>, pad: char, k: nat)
    requires k <= |entries| && AllSuit(start)
    ensures AllSuit(EnterAll(start, entries, pad, k).keys)
  {
    if k != 0 {
      KeyLengths(start, entries, pad, k - 1);
      EnterKeepsLengths(EnterAll(start, entries, pad, k - 1), entries[k - 1], pad);
    }
  }

  lemma {:induction false} KeysAreClean(start: Keys, entries: seq<string>, pad: char, k: nat)
    requires k <= |entries| && Clean([pad]) && CommaFree(entries) && AllClean(start)
    ensures AllClean(EnterAll(start, entries, pad, k).keys)
  {
    if k != 0 {
      KeysAreClean(start, entries, pad, k - 1);
      var s, entry := EnterAll(start, entries, pad, k - 1), entries[k - 1];
      var res := Split(entry, ':');
      if |res| == 2 {
        EntryParts(entry);
        assert Clean(Lookup(s.keys, res[0]));
        AcceptedIsClean(KindOf(res[0]), Lookup(s.keys, res[0]), res[1], pad);
      }
    }
  }

  // ---------- the printed list ----------

  /** What one entry prints. */
  function Printed(s: State, entry: string, pad: char): seq<string> {
    var res := Split(entry, ':');
    if |res| != 2 || KindOf(res[0]).Unknown? then []
    else [res[0] + ":" + Lookup(Enter(s, entry, pad).keys, res[0])]
  }

  function PrintedAll(start: Keys, entries: seq<string>, pad: char, k: nat): seq<string>
    requires k <= |entries|
  {
    if k == 0 then []
    else PrintedAll(start, entries, pad, k - 1) + Printed(EnterAll(start, entries, pad, k - 1), entries[k - 1], pad)
  }

  lemma {:induction false} EnterPrints(s: State, entry: string, pad: char, before: seq<string>)
    requires s.result == Terminated(before)
    ensures Enter(s, entry, pad).result == Terminated(before + Printed(s, entry, pad))
  {
    var printed := Printed(s, entry, pad);
    if printed == [] {
      assert before + printed == before;
    } else {
      assert printed == [printed[0]];
      TerminatedAppend(before, printed[0]);
    }
  }

  lemma {:induction false} ResultIsPrinted(start: Keys, entries: seq<string>, pad: char, k: nat)
    requires k <= |entries|
    ensures EnterAll(start, entries, pad, k).result == Terminated(PrintedAll(start, entries, pad, k))
  {
    if k != 0 {
      ResultIsPrinted(start, entries, pad, k - 1);
      EnterPrints(EnterAll(start, entries, pad, k - 1), entries[k - 1], pad, PrintedAll(start, entries, pad, k - 1));
    }
  }

  /** Entering what an entry printed has the same effect as the entry. */
  lemma {:induction false} PrintedRepeats(s: State, entry: string, pad: char)
    requires AllSuit(s.keys) && AllClean(s.keys) && Clean([pad]) && ',' !in entry
    ensures Printed(s, entry, pad) == [] ==> Enter(s, entry, pad) == s
    ensures Printed(s, entry, pad) != [] ==>
              ',' !in Printed(s, entry, pad)[0] && Enter(s, Printed(s, entry, pad)[0], pad) == Enter(s, entry, pad)
  {
    var res := Split(entry, ':');
    if |res| == 2 && !KindOf(res[0]).Unknown? {
      var sig, previous := res[0], Lookup(s.keys, res[0]);
      EntryParts(entry);
      assert Suits(KindOf(sig), previous);
      AcceptedStays(KindOf(sig), previous, res[1], pad);
      assert Clean(previous);
      AcceptedIsClean(KindOf(sig), previous, res[1], pad);
      var new_ := Accepted(KindOf(sig), previous, res[1], pad);
      assert Printed(s, entry, pad) == [sig + ":" + new_];
      SplitFirst(sig, ':', new_);
      SplitFirst(new_, ':', []);
      assert Split(sig + ":" + new_, ':') == [sig, new_];
    }
  }

  lemma {:induction false} SamePrefix(start: Keys, a: seq<string>, b: seq<string>, pad: char, k: nat)
    requires k <= |a| && k <= |b| && forall i :: 0 <= i < k ==> a[i] == b[i]
    ensures EnterAll(start, a, pad, k) == EnterAll(start, b, pad, k)
  {
    if k != 0 {
      SamePrefix(start, a, b, pad, k - 1);
    }
  }

  lemma {:induction false} EnterAppend(start: Keys, p: seq<string>, entry: string, pad: char)
    ensures EnterAll(start, p + [entry], pad, |p| + 1) == Enter(EnterAll(start, p, pad, |p|), entry, pad)
  {
    SamePrefix(start, p, p + [entry], pad, |p|);
  }

  predicate CommaFree(entries: seq<string>) {
    forall i :: 0 <= i < |entries| ==> ',' !in entries[i]
  }

  lemma {:induction false} ReenterStep(start: Keys, front: seq<string>, s: State, entry: string, pad: char)
    requires AllSuit(s.keys) && AllClean(s.keys) && Clean([pad]) && ',' !in entry
    requires CommaFree(front) && EnterAll(start, front, pad, |front|) == s
    ensures CommaFree(front + Printed(s, entry, pad))
    ensures EnterAll(start, front + Printed(s, entry, pad), pad, |front + Printed(s, entry, pad)|)
            == Enter(s, entry, pad)
  {
    var printed := Printed(s, entry, pad);
    PrintedRepeats(s, entry, pad);
    if printed == [] {
      assert front + printed == front;
    } else {
      EnterAppend(start, front, printed[0], pad);
      assert printed == [printed[0]];
    }
  }

  lemma {:induction false} ReenterNext(start: Keys, front: seq<string>, s: State, entry: string, pad: char,
                                       printed: seq<string>, next: State)
    requires AllSuit(s.keys) && AllClean(s.keys) && Clean([pad]) && ',' !in entry
    requires CommaFree(front) && EnterAll(start, front, pad, |front|) == s
    requires printed == front + Printed(s, entry, pad) && next == Enter(s, entry, pad)
    ensures CommaFree(printed) && EnterAll(start, printed, pad, |printed|) == next
  {
    ReenterStep(start, front, s, entry, pad);
  }

  lemma EnterStep(start: Keys, entries: seq<string>, pad: char, k: nat)
    requires 0 < k <= |entries|
    ensures var s := EnterAll(start, entries, pad, k - 1);
            && EnterAll(start, entries, pad, k) == Enter(s, entries[k - 1], pad)
            && PrintedAll(start, entries, pad, k)
               == PrintedAll(start, entries, pad, k - 1) + Printed(s, entries[k - 1], pad)
  {
  }

  lemma {:induction false} PrintedReenters(start: Keys, entries: seq<string>, pad: char, k: nat)
    requires k <= |entries| && Clean([pad]) && CommaFree(entries) && AllSuit(start) && AllClean(start)
    ensures CommaFree(PrintedAll(start, entries, pad, k))
    ensures EnterAll(start, PrintedAll(start, entries, pad, k), pad, |PrintedAll(start, entries, pad, k)|)
            == EnterAll(start, entries, pad, k)
  {
    if k != 0 {
      var s, front := EnterAll(start, entries, pad, k - 1), PrintedAll(start, entries, pad, k - 1);
      PrintedReenters(start, entries, pad, k - 1);
      KeyLengths(start, entries, pad, k - 1);
      KeysAreClean(start, entries, pad, k - 1);
      EnterStep(start, entries, pad, k);
      ReenterNext(start, front, s, entries[k - 1], pad, PrintedAll(start, entries, pad, k),
                  EnterAll(start, entries, pad, k));
    }
  }

  lemma {:induction false} EmptyEntries(start: Keys, p: seq<string>, pad: char)
    ensures EnterAll(start, p + ["", ""], pad, |p| + 2) == EnterAll(start, p, pad, |p|)
  {
    var more := p + ["", ""];
    SamePrefix(start, p, more, pad, |p|);
    assert Split("", ':') == [""];
    assert EnterAll(start, more, pad, |p| + 1) == EnterAll(start, more, pad, |p|);
  }

  lemma {:induction false} ReadPrinted(start: Keys, p: seq<string>, pad: char)
    requires CommaFree(p)
    ensures var entries := Split(Terminated(p) + ",", ',');
            EnterAll(start, entries, pad, |entries|) == EnterAll(start, p, pad, |p|)
  {
    TerminatedAppend(p, "");
    TerminatedJoin(p + [""]);
    assert p + [""] + [""] == p + ["", ""];
    assert Terminated(p) + "" + "," == Terminated(p) + ",";
    SplitOfJoin(p + ["", ""], ',');
    EmptyEntries(start, p, pad);
  }

  /** The printed list is canonical: given back, it yields the same keys and prints itself. */
  lemma {:induction false} PrintedIsCanonical(keylist: string, pad: char)
    requires Clean([pad])
    ensures KeysFor(KeysFor(keylist, pad).result, pad) == KeysFor(keylist, pad)
  {
    DefaultsSuit();
    DefaultsAreClean();
    CanonicalFrom(Defaults(), keylist, pad);
  }

  lemma {:induction false} CanonicalFrom(start: Keys, keylist: string, pad: char)
    requires Clean([pad]) && AllSuit(start) && AllClean(start)
    ensures var entries := Split(keylist + ",", ',');
            var r := EnterAll(start, entries, pad, |entries|);
            var again := Split(r.result + ",", ',');
            EnterAll(start, again, pad, |again|) == r
  {
    var entries := Split(keylist + ",", ',');
    SplitParts(keylist + ",", ',');
    ResultIsPrinted(start, entries, pad, |entries|);
    PrintedReenters(start, entries, pad, |entries|);
    ReadPrinted(start, PrintedAll(start, entries, pad, |entries|), pad);
  }

  /** After any call Highway keys have 64 characters, siphash keys 32, and Blake2s keys at
      least 16. */
  lemma {:induction false} KeyLengthsAlways(keylist: string, pad: char)
    ensures AllSuit(KeysFor(keylist, pad).keys)
  {
    var entries := Split(keylist + ",", ',');
    DefaultsSuit();
    KeyLengths(Defaults(), entries, pad, |entries|);
  }

  // ---------- each signature by itself ----------

  /** The key of one signature, following only the entries for it. */
  function KeyAfter(start: Keys, entries: seq<string>, pad: char, k: nat, sig: string): string
    requires k <= |entries|
  {
    if k == 0 then Lookup(start, sig)
    else
      var previous := KeyAfter(start, entries, pad, k - 1, sig);
      var res := Split(entries[k - 1], ':');
      if |res| == 2 && res[0] == sig then Accepted(KindOf(sig), previous, res[1], pad) else previous
  }

  /** Entries for other signatures do not matter. */
  lemma {:induction false} KeysAreIndependent(start: Keys, entries: seq<string>, pad: char, k: nat, sig: string)
    requires k <= |entries|
    ensures Lookup(EnterAll(start, entries, pad, k).keys, sig) == KeyAfter(start, entries, pad, k, sig)
  {
    if k != 0 {
      KeysAreIndependent(start, entries, pad, k - 1, sig);
    }
  }

  // ---------- from the text to the key ----------

  lemma {:induction false} EntriesOfText(entries: seq<string>)
    requires |entries| >= 1 && CommaFree(entries)
    ensures Split(JoinWith(entries, ',') + ",", ',') == entries + [""]
  {
    TerminatedJoin(entries);
    SplitOfJoin(entries + [""], ',');
  }

  lemma {:induction false} EntryIsSplit(sig: string, key: string)
    requires ':' !in sig && ':' !in key
    ensures Split(sig + ":" + key, ':') == [sig, key]
  {
    SplitFirst(sig, ':', key);
    SplitFirst(key, ':', []);
  }

  /** The signature, a colon, and a key without one. */
  ghost predicate IsEntryFor(sig: string, entry: string) {
    sig + ":" <= entry && ':' !in entry[|sig| + 1..]
  }

  lemma {:induction false} TwoPartsAreAnEntry(entry: string, sig: string)
    requires |Split(entry, ':')| == 2 && Split(entry, ':')[0] == sig
    ensures IsEntryFor(sig, entry)
  {
    var res := Split(entry, ':');
    JoinOfSplit(entry, ':');
    SplitParts(entry, ':');
    assert JoinWith(res[1..], ':') == res[1];
    assert entry == sig + ":" + res[1];
    assert entry[|sig| + 1..] == res[1];
  }

  /** The key does not change any more if no later entry is for the signature. */
  lemma {:induction false} KeyStays(start: Keys, entries: seq<string>, pad: char, k: nat, n: nat, sig: string)
    requires k <= n <= |entries| && forall j :: k <= j < n ==> !IsEntryFor(sig, entries[j])
    ensures KeyAfter(start, entries, pad, n, sig) == KeyAfter(start, entries, pad, k, sig)
  {
    if k < n {
      KeyStays(start, entries, pad, k, n - 1, sig);
      var res := Split(entries[n - 1], ':');
      if |res| == 2 && res[0] == sig {
        TwoPartsAreAnEntry(entries[n - 1], sig);
      }
    }
  }

  lemma {:induction false} KeyAfterPrefix(start: Keys, a: seq<string>, b: seq<string>, pad: char, k: nat, sig: string)
    requires k <= |a| && k <= |b| && forall i :: 0 <= i < k ==> a[i] == b[i]
    ensures KeyAfter(start, a, pad, k, sig) == KeyAfter(start, b, pad, k, sig)
  {
    if k != 0 {
      KeyAfterPrefix(start, a, b, pad, k - 1, sig);
    }
  }

  /** The key a list of entries leaves for the signature; none leave the default. */
  function KeyOf(entries: seq<string>, pad: char, sig: string): string {
    if entries == [] then Lookup(Defaults(), sig) else Lookup(KeysFor(JoinWith(entries, ','), pad).keys, sig)
  }

  lemma {:induction false} KeyOfEntries(entries: seq<string>, pad: char, sig: string)
    requires CommaFree(entries)
    ensures KeyOf(entries, pad, sig) == KeyAfter(Defaults(), entries, pad, |entries|, sig)
  {
    if entries != [] {
      var all := entries + [""];
      EntriesOfText(entries);
      KeysAreIndependent(Defaults(), all, pad, |all|, sig);
      assert Split(all[|entries|], ':') == [""];
      KeyAfterPrefix(Defaults(), all, entries, pad, |entries|, sig);
    }
  }

  /** A key of the width is taken as it is, a shorter one of at least two characters moves to the
      right end with pad in front of it; any other leaves the old key. */
  ghost predicate TakenAt(width: nat, key: string, previous: string, pad: char, r: string) {
    && (|key| == width ==> r == key)
    && (1 < |key| < width ==>
          && |r| == width && r[width - |key|..] == key
          && forall i :: 0 <= i < width - |key| ==> r[i] == pad)
    && (|key| <= 1 || |key| > width ==> r == previous)
  }

  /** What an entry leaves as the key of its signature: the width is 64 for Highway and 32 for
      siphash, Blake2s takes 16 characters or more, the other keyed signatures take any key, and
      all other names leave the old one. */
  ghost predicate TakenFor(sig: string, key: string, previous: string, pad: char, r: string) {
    if sig in { "hw32", "hw64", "hw128", "hw256" } then TakenAt(64, key, previous, pad, r)
    else if sig in { "sip64", "sip128" } then TakenAt(32, key, previous, pad, r)
    else if sig in { "blake2s_128", "blake2s_256" } then r == if |key| >= 16 then key else previous
    else if sig in {
        "aes8", "ax1", "ax2", "ct64", "fh32", "fh64", "jn64", "mar32", "me32", "me64", "me128", "mm32", "murmur3",
        "spk32", "spk64", "t1ha", "xxh32", "xxhash", "wy"
      } then r == key
    else r == previous
  }

  lemma {:induction false} AcceptedIsTaken(sig: string, key: string, previous: string, pad: char)
    ensures TakenFor(sig, key, previous, pad, Accepted(KindOf(sig), previous, key, pad))
  {
    TakenExactly(HW_CHARS, key, previous, pad);
    TakenExactly(SIP_CHARS, key, previous, pad);
  }

  /** The last entry for a signature decides its key. */
  lemma {:induction false} LastEntryDecides(entries: seq<string>, k: nat, sig: string, key: string, pad: char)
    requires CommaFree(entries) && k < |entries| && entries[k] == sig + ":" + key
    requires ':' !in sig && ':' !in key
    requires forall j :: k < j < |entries| ==> !IsEntryFor(sig, entries[j])
    ensures TakenFor(sig, key, KeyOf(entries[..k], pad, sig), pad, KeyOf(entries, pad, sig))
  {
    var previous := KeyAfter(Defaults(), entries, pad, k, sig);
    KeyOfEntries(entries, pad, sig);
    KeyOfEntries(entries[..k], pad, sig);
    KeyAfterPrefix(Defaults(), entries, entries[..k], pad, k, sig);
    EntryIsSplit(sig, key);
    KeyStays(Defaults(), entries, pad, k + 1, |entries|, sig);
    AcceptedIsTaken(sig, key, previous, pad);
  }

  lemma {:induction false} TakenExactly(width: nat, key: string, previous: string, pad: char)
    requires width > 1
    ensures TakenAt(width, key, previous, pad, Accepted(Padded(width), previous, key, pad))
  {
    if |key| < width {
      assert Pad(key, width, pad)[width - |key|..] == key;
    }
  }

  /** Without an entry a signature keeps its default. */
  lemma {:induction false} NoEntryKeepsDefault(entries: seq<string>, sig: string, pad: char)
    requires CommaFree(entries) && forall j :: 0 <= j < |entries| ==> !IsEntryFor(sig, entries[j])
    ensures KeyOf(entries, pad, sig) == Lookup(Defaults(), sig)
  {
    KeyOfEntries(entries, pad, sig);
    KeyStays(Defaults(), entries, pad, 0, |entries|, sig);
  }
}
