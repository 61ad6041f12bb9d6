/** The signature check of the Go programs (decode/mdHashContextList/mdHashContextList.go): a
    candidate block against the signature bytes of a record. */
module HashContext {
  import opened Bytes
  import opened Text
  import opened SignatureList
  import opened Sums
  import KeyList

  /** Any signature algorithm by name. */
  type Digest = (string, Bytes) -> Bytes

  /** All digests of a block one behind the other. */
  function Digests(digest: Digest, names: seq<string>, block: Bytes, k: nat): Bytes
    requires k <= |names|
  {
    if k == 0 then [] else Digests(digest, names, block, k - 1) + digest(names[k - 1], block)
  }

  /** The k-th slice of the stored bytes is the digest. */
  ghost predicate SliceMatches(digest: Digest, names: seq<string>, sizes: seq<nat>, blob: Bytes, block: Bytes, k: nat)
    requires k < |names| == |sizes| && Total(sizes, |sizes|) <= |blob|
  {
    TotalMonotone(sizes, k + 1, |sizes|);
    blob[Total(sizes, k)..Total(sizes, k + 1)] == digest(names[k], block)
  }

  ghost predicate SlicesMatch(digest: Digest, names: seq<string>, sizes: seq<nat>, blob: Bytes, block: Bytes, n: nat)
    requires n <= |names| == |sizes| && Total(sizes, |sizes|) <= |blob|
  {
    forall k :: 0 <= k < n ==> SliceMatches(digest, names, sizes, blob, block, k)
  }

  ghost predicate DigestsHaveSizes(digest: Digest, names: seq<string>, sizes: seq<nat>, block: Bytes, n: nat)
    requires n <= |names| == |sizes|
  {
    forall k :: 0 <= k < n ==> |digest(names[k], block)| == sizes[k]
  }

  /** Slices that match one by one are, taken together, the digests one behind the other, and
      each digest then has the size of its slice. */
  lemma {:induction false} SlicesAreDigests(digest: Digest, names: seq<string>, sizes: seq<nat>, blob: Bytes,
                                            block: Bytes, n: nat)
    requires n <= |names| == |sizes| && Total(sizes, |sizes|) <= |blob|
    ensures Total(sizes, n) <= |blob|
    ensures SlicesMatch(digest, names, sizes, blob, block, n)
            <==> && DigestsHaveSizes(digest, names, sizes, block, n)
                 && blob[..Total(sizes, n)] == Digests(digest, names, block, n)
  {
    TotalMonotone(sizes, n, |sizes|);
    if n != 0 {
      var d := digest(names[n - 1], block);
      SlicesAreDigests(digest, names, sizes, blob, block, n - 1);
      SlicesStep(digest, names, sizes, blob, block, n);
      var front, mid := Total(sizes, n - 1), Total(sizes, n);
      assert blob[..mid] == blob[..front] + blob[front..mid];
      assert SliceMatches(digest, names, sizes, blob, block, n - 1) <==> blob[front..mid] == d;
      if DigestsHaveSizes(digest, names, sizes, block, n - 1) {
        DigestsLength(digest, names, sizes, block, n - 1);
        EqualParts(blob[..front], blob[front..mid], Digests(digest, names, block, n - 1), d);
      }
    }
  }

  lemma EqualParts(a: Bytes, b: Bytes, c: Bytes, d: Bytes)
    requires |a| == |c|
    ensures a + b == c + d <==> a == c && b == d
  {
    assert (a + b)[..|a|] == a && (a + b)[|a|..] == b;
    assert (c + d)[..|c|] == c && (c + d)[|c|..] == d;
  }

  lemma {:induction false} SlicesStep(digest: Digest, names: seq<string>, sizes: seq<nat>, blob: Bytes, block: Bytes,
                                      n: nat)
    requires 0 < n <= |names| == |sizes| && Total(sizes, |sizes|) <= |blob|
    ensures SlicesMatch(digest, names, sizes, blob, block, n)
            <==> SlicesMatch(digest, names, sizes, blob, block, n - 1)
                 && SliceMatches(digest, names, sizes, blob, block, n - 1)
    ensures DigestsHaveSizes(digest, names, sizes, block, n)
            <==> DigestsHaveSizes(digest, names, sizes, block, n - 1) && |digest(names[n - 1], block)| == sizes[n - 1]
  {
  }

  lemma {:induction false} DigestsLength(digest: Digest, names: seq<string>, sizes: seq<nat>, block: Bytes, n: nat)
    requires n <= |names| == |sizes| && DigestsHaveSizes(digest, names, sizes, block, n)
    ensures |Digests(digest, names, block, n)| == Total(sizes, n)
  {
    if n != 0 {
      DigestsLength(digest, names, sizes, block, n - 1);
    }
  }

  // ---------- registered names ----------

  predicate AllRegistered(m: map<string, nat>, names: seq<string>) {
    forall i :: 0 <= i < |names| ==> names[i] in m
  }

  /** For registered names the computed size list is the registered sizes in order, and its
      sum is the total. */
  lemma {:induction false} SizesOfRegistered(m: map<string, nat>, names: seq<string>, k: nat)
    requires k <= |names| && AllRegistered(m, names)
    ensures |SizesOf(m, names, k)| == k
    ensures forall i :: 0 <= i < k ==> SizesOf(m, names, k)[i] == m[names[i]]
  {
    if k != 0 {
      SizesOfRegistered(m, names, k - 1);
    }
  }

  class HashContextList {
    const digest: Digest
    const mdBlockSize: BlockList
    var blockHashListNames: seq<string>
    var hashBlockSize: nat
    var hashBlockSizeList: seq<nat>
    var hashBlockBytes: Bytes
    var keylist: KeyList.Keys

    constructor (digest: Digest, mdBlockSize: BlockList)
      ensures this.digest == digest && this.mdBlockSize == mdBlockSize
    {
      this.digest, this.mdBlockSize := digest, mdBlockSize;
      blockHashListNames, hashBlockSize, hashBlockSizeList, hashBlockBytes, keylist := [], 0, [], [], map[];
    }

    /** Names and sizes of the block signatures. A name that is not registered gets no size; then
        sizes and names no longer belong together. */
    method SetBlockList(hashlist: string)
      requires mdBlockSize.Valid()
      modifies this, mdBlockSize
      ensures mdBlockSize.Valid() && mdBlockSize.m == old(mdBlockSize.m) && hashBlockBytes == old(hashBlockBytes)
      ensures blockHashListNames == Split(hashlist, ':')
      ensures hashBlockSizeList == SizesOf(mdBlockSize.m, blockHashListNames, |blockHashListNames|)
      ensures hashBlockSize == Total(hashBlockSizeList, |hashBlockSizeList|)
      ensures Ready() <==> AllRegistered(mdBlockSize.m, blockHashListNames)
    {
      blockHashListNames := Split(hashlist, ':');
      mdBlockSize.CalcHashBlockSize(hashlist);
      hashBlockSize := mdBlockSize.blockSize;
      hashBlockSizeList := mdBlockSize.blockSizeArr;
      if AllRegistered(mdBlockSize.m, blockHashListNames) {
        SizesOfRegistered(mdBlockSize.m, blockHashListNames, |blockHashListNames|);
      }
    }

    /** Fresh defaults, then one entry after another; prints the list it took. */
    method SetHashListKey(keys: string, pad: char) returns (result: string)
      modifies `keylist
      ensures keylist == KeyList.KeysFor(keys, pad).keys && result == KeyList.KeysFor(keys, pad).result
    {
      keylist := KeyList.Defaults();
      result := "";
      ghost var start := keylist;
      KeyList.DefaultsSuit();
      var entries := Split(keys + ",", ',');
      var i := 0;
      while i < |entries|
        invariant 0 <= i <= |entries|
        invariant KeyList.EnterAll(start, entries, pad, i) == KeyList.State(keylist, result)
      {
        var res := Split(entries[i], ':');
        KeyList.KeyLengths(start, entries, pad, i);
        if |res| == 2 {
          var printed := SetKey(res[0], res[1], pad);
          result := result + printed;
        }
        i := i + 1;
      }
    }

    /** The switch over the signatures; prints the key now in force, nothing for an unknown one. */
    method SetKey(sig: string, sigkey: string, pad: char) returns (printed: string)
      requires KeyList.AllSuit(keylist)
      modifies `keylist
      ensures KeyList.KindOf(sig).Unknown? ==> keylist == old(keylist) && printed == ""
      ensures !KeyList.KindOf(sig).Unknown? ==>
                var key := KeyList.Accepted(KeyList.KindOf(sig), KeyList.Lookup(old(keylist), sig), sigkey, pad);
                keylist == old(keylist)[sig := key] && printed == sig + ":" + key + ","
    {
      var sigkeysize := |sigkey|;
      assert KeyList.Suits(KeyList.KindOf(sig), KeyList.Lookup(keylist, sig));
      if sig in KeyList.FREE {
        keylist := keylist[sig := sigkey];
      } else if sig in KeyList.BLAKE {
        if sigkeysize >= 16 {
          keylist := keylist[sig := sigkey];
        }
      } else if sig in KeyList.HIGHWAY {
        if sigkeysize == 64 {
          keylist := keylist[sig := sigkey];
        } else if sigkeysize > 1 && sigkeysize < 64 {
          keylist := keylist[sig := KeyList.Pad(sigkey, 64, pad)];
        }
      } else if sig in KeyList.SIPHASH {
        if sigkeysize == 32 {
          keylist := keylist[sig := sigkey];
        } else if sigkeysize > 1 && sigkeysize < 32 {
          keylist := keylist[sig := KeyList.Pad(sigkey, 32, pad)];
        }
      } else {
        return "";
      }
      printed := sig + ":" + keylist[sig] + ",";
    }

    /** The signature bytes of the current record. */
    method SetBlockHash(byteblock: Bytes)
      modifies `hashBlockBytes
      ensures hashBlockBytes == byteblock
    {
      hashBlockBytes := byteblock;
    }

    ghost predicate Ready()
      reads this, mdBlockSize
    {
      && 0 < |blockHashListNames| == |hashBlockSizeList|
      && (forall i :: 0 <= i < |blockHashListNames| ==>
            blockHashListNames[i] in mdBlockSize.m && hashBlockSizeList[i] == mdBlockSize.m[blockHashListNames[i]])
      && hashBlockSize == Total(hashBlockSizeList, |hashBlockSizeList|)
    }

    /** True exactly if the stored bytes start with all digests of the block and every digest
        has the registered size. */
    method CheckFileHashBlock(byteblock: Bytes) returns (r: bool)
      requires Ready() && |hashBlockBytes| >= hashBlockSize
      ensures r <==> && DigestsHaveSizes(digest, blockHashListNames, hashBlockSizeList, byteblock, |blockHashListNames|)
                     && hashBlockBytes[..hashBlockSize]
                        == Digests(digest, blockHashListNames, byteblock, |blockHashListNames|)
    {
      var start, end := 0, hashBlockSizeList[0];
      var position := 0;
      SlicesAreDigests(digest, blockHashListNames, hashBlockSizeList, hashBlockBytes, byteblock, |blockHashListNames|);
      while position < |blockHashListNames|
        invariant 0 <= position <= |blockHashListNames| && start == Total(hashBlockSizeList, position)
        invariant SlicesMatch(digest, blockHashListNames, hashBlockSizeList, hashBlockBytes, byteblock, position)
      {
        var h := digest(blockHashListNames[position], byteblock);
        end := start + hashBlockSizeList[position];
        TotalMonotone(hashBlockSizeList, position + 1, |hashBlockSizeList|);
        assert SliceMatches(digest, blockHashListNames, hashBlockSizeList, hashBlockBytes, byteblock, position)
          <==> hashBlockBytes[start..end] == h;
        if h != hashBlockBytes[start..end] {
          return false;
        }
        start := start + hashBlockSizeList[position];
        position := position + 1;
      }
      r := true;
    }
  }
}
