/** The DT_DEBUG patch of a captured `_DYNAMIC` array (src/augment.rs). */
module DynamicSection {
  import opened Bytes
  import opened Model
  import opened Memory

  const DT_NULL := 0
  const DT_DEBUG := 21

  /** One dynamic entry: its tag and its value. */
  datatype Entry = Entry(tag: nat, value: nat)

  function TagOf(bytes: seq<byte>, word: WordSize): nat
    requires word <= |bytes|
  {
    FromLE(bytes[..word])
  }

  /** The entries of the array; a trailing fragment is not an entry. */
  function Entries(bytes: seq<byte>, word: WordSize): (es: seq<Entry>)
  {
    if |bytes| < 2 * word then []
    else [Entry(TagOf(bytes, word), FromLE(bytes[word..2 * word]))] + Entries(bytes[2 * word..], word)
  }

  /** The first entry tagged DT_DEBUG, if no DT_NULL comes before it. */
  function DebugEntry(es: seq<Entry>): (r: Option<nat>)
    ensures r.Some? ==>
      && r.value < |es| && es[r.value].tag == DT_DEBUG
      && forall i :: 0 <= i < r.value ==> es[i].tag != DT_DEBUG && es[i].tag != DT_NULL
    ensures r.None? ==> forall k :: 0 <= k < |es| && es[k].tag == DT_DEBUG ==>
      exists i :: 0 <= i < k && es[i].tag == DT_NULL
  {
    if es == [] || es[0].tag == DT_NULL then None
    else if es[0].tag == DT_DEBUG then Some(0)
    else
      match DebugEntry(es[1..])
      case Some(k) => Some(k + 1)
      case None =>
        assert forall k :: 0 <= k < |es| && es[k].tag == DT_DEBUG ==>
          exists i :: 0 <= i < k && es[i].tag == DT_NULL by { LaterNull(es); }
        None
  }

  lemma LaterNull(es: seq<Entry>)
    requires es != [] && es[0].tag != DT_DEBUG
    requires forall k :: 0 <= k < |es[1..]| && es[1..][k].tag == DT_DEBUG ==>
      exists i :: 0 <= i < k && es[1..][i].tag == DT_NULL
    ensures forall k :: 0 <= k < |es| && es[k].tag == DT_DEBUG ==>
      exists i :: 0 <= i < k && es[i].tag == DT_NULL
  {
    forall k | 0 <= k < |es| && es[k].tag == DT_DEBUG
      ensures exists i :: 0 <= i < k && es[i].tag == DT_NULL
    {
      assert es[1..][k - 1] == es[k];
      var i :| 0 <= i < k - 1 && es[1..][i].tag == DT_NULL;
      assert es[i + 1].tag == DT_NULL;
    }
  }

  /** What the first entry decides about the search for DT_DEBUG. */
  lemma SearchStep(bytes: seq<byte>, word: WordSize)
    requires 2 * word <= |bytes|
    ensures var es, tag := Entries(bytes, word), TagOf(bytes, word);
            && es != [] && es[0].tag == tag && es[1..] == Entries(bytes[2 * word..], word)
            && (tag == DT_DEBUG ==> DebugEntry(es) == Some(0))
            && (tag == DT_NULL ==> DebugEntry(es) == None)
            && (tag != DT_DEBUG && tag != DT_NULL ==>
                  DebugEntry(es) == match DebugEntry(es[1..]) case None => None case Some(k) => Some(k + 1))
  {
    assert Entries(bytes, word)[1..] == Entries(bytes[2 * word..], word);
  }

  /** The array with the value of its DT_DEBUG entry replaced by `addr`. */
  function Patched(bytes: seq<byte>, word: WordSize, addr: nat): (r: seq<byte>)
    ensures |r| == |bytes|
  {
    if |bytes| < 2 * word then bytes
    else if TagOf(bytes, word) == DT_DEBUG then bytes[..word] + LE(addr, word) + bytes[2 * word..]
    else if TagOf(bytes, word) == DT_NULL then bytes
    else bytes[..2 * word] + Patched(bytes[2 * word..], word, addr)
  }

  lemma ShortHasNone(bytes: seq<byte>, word: WordSize)
    ensures |bytes| < 2 * word ==> DebugEntry(Entries(bytes, word)).None?
    ensures |bytes| < 2 * word ==> forall addr :: Patched(bytes, word, addr) == bytes
  {
  }

  // ---------- the patch in place ----------

  method ReadTag(bytes: array<byte>, offset: nat, word: WordSize) returns (tag: nat)
    requires offset + 2 * word <= bytes.Length
    ensures tag == TagOf(bytes[offset..], word)
  {
    assert bytes[offset..][..word] == bytes[offset..offset + word];
    return FromLE(bytes[offset..offset + word]);
  }

  method WriteWord(bytes: array<byte>, offset: nat, word: WordSize, value: u64) returns (r: Result<()>)
    requires offset + word <= bytes.Length
    modifies bytes
    ensures r.Ok? <==> FitsWord(value, word)
    ensures r.Ok? ==> bytes[..] == old(bytes[..offset]) + LE(value, word) + old(bytes[offset + word..])
    ensures r.Err? ==> bytes[..] == old(bytes[..])
  {
    if word == 4 && value >= U32_LIMIT {
      return Err(IntegerOverflow);
    }
    var encoded := LE(value, word);
    forall i | 0 <= i < word {
      bytes[offset + i] := encoded[i];
    }
    return Ok(());
  }

  /** The loop stops at the first DT_DEBUG or DT_NULL. */
  method PatchDtDebug(arch: Architecture, bytes: array<byte>, addr: u64) returns (r: Result<()>)
    modifies bytes
    ensures r.Ok? <==> DebugEntry(Entries(old(bytes[..]), arch.LongSize())).None? || FitsWord(addr, arch.LongSize())
    ensures r.Ok? ==> bytes[..] == Patched(old(bytes[..]), arch.LongSize(), addr)
    ensures r.Err? ==> bytes[..] == old(bytes[..])
  {
    hide LE, FromLE, TagOf, Entries, DebugEntry, Patched;
    var word := arch.LongSize();
    var entry := if arch.Is64Bit() then 16 else 8;
    ghost var was := bytes[..];
    var offset := 0;
    assert was[0..] == was && was[..0] == [];
    while offset + entry <= bytes.Length
      invariant 0 <= offset <= bytes.Length
      invariant bytes[..] == was
      invariant Patched(was, word, addr) == was[..offset] + Patched(was[offset..], word, addr)
      invariant DebugEntry(Entries(was, word)).None? <==> DebugEntry(Entries(was[offset..], word)).None?
    {
      var tag := ReadTag(bytes, offset, word);
      assert bytes[offset..] == was[offset..];
      SuffixStep(was, word, addr, offset);
      if tag == DT_DEBUG {
        r := WriteWord(bytes, offset + entry / 2, word, addr);
        return;
      }
      if tag == DT_NULL {
        return Ok(());
      }
      offset := offset + entry;
    }
    ShortHasNone(was[offset..], word);
    assert was[..offset] + was[offset..] == was;
    return Ok(());
  }

  /** What one turn of the loop learns about the array from `offset` on. */
  lemma SuffixStep(was: seq<byte>, word: WordSize, addr: nat, offset: nat)
    requires offset + 2 * word <= |was|
    ensures var rest, tag := was[offset..], TagOf(was[offset..], word);
            && (tag == DT_DEBUG ==>
                  && DebugEntry(Entries(rest, word)).Some?
                  && was[..offset] + Patched(rest, word, addr)
                     == was[..offset + word] + LE(addr, word) + was[offset + 2 * word..])
            && (tag == DT_NULL ==>
                  DebugEntry(Entries(rest, word)).None? && was[..offset] + Patched(rest, word, addr) == was)
            && (tag != DT_DEBUG && tag != DT_NULL ==>
                  && (DebugEntry(Entries(rest, word)).None?
                      <==> DebugEntry(Entries(was[offset + 2 * word..], word)).None?)
                  && was[..offset] + Patched(rest, word, addr)
                     == was[..offset + 2 * word] + Patched(was[offset + 2 * word..], word, addr))
  {
    hide LE, FromLE, TagOf, Entries, DebugEntry;
    var rest := was[offset..];
    SearchStep(rest, word);
    assert rest[2 * word..] == was[offset + 2 * word..];
    assert was[..offset] + rest[..word] == was[..offset + word];
    assert was[..offset] + rest[..2 * word] == was[..offset + 2 * word];
    SuffixPieces(was, rest, offset, word, addr);
  }

  lemma SuffixPieces(was: seq<byte>, rest: seq<byte>, offset: nat, word: WordSize, addr: nat)
    requires offset + 2 * word <= |was| && rest == was[offset..]
    ensures was[..offset] + (rest[..word] + LE(addr, word) + rest[2 * word..])
            == was[..offset + word] + LE(addr, word) + was[offset + 2 * word..]
    ensures was[..offset] + rest == was
    ensures forall tail: seq<byte> :: was[..offset] + (rest[..2 * word] + tail) == was[..offset + 2 * word] + tail
  {
    hide LE;
  }

  // ---------- the patch is minimal and complete ----------

  /** A reader of the patched array sees the same entries, but for the value of the first
      DT_DEBUG entry that no DT_NULL precedes. */
  lemma {:induction false} PatchedEntries(bytes: seq<byte>, word: WordSize, addr: u64)
    requires FitsWord(addr, word)
    ensures var es := Entries(bytes, word);
            Entries(Patched(bytes, word, addr), word) ==
            match DebugEntry(es)
            case Some(k) => es[k := Entry(DT_DEBUG, addr)]
            case None => es
    decreases |bytes|
  {
    hide LE, FromLE, DebugEntry, TagOf, Patched;
    var patched := Patched(bytes, word, addr);
    if |bytes| < 2 * word {
    } else {
      SearchStep(bytes, word);
      PatchedPieces(bytes, word, addr);
      if TagOf(bytes, word) == DT_DEBUG {
        FitsWordLimit(addr, word);
        DecodeEncode(addr, word);
      } else if TagOf(bytes, word) != DT_NULL {
        PatchedEntries(bytes[2 * word..], word, addr);
      }
    }
  }

  /** The first entry of the patched array. */
  lemma PatchedPieces(bytes: seq<byte>, word: WordSize, addr: nat)
    requires 2 * word <= |bytes|
    ensures var patched, tag := Patched(bytes, word, addr), TagOf(bytes, word);
            && patched[..word] == bytes[..word] && TagOf(patched, word) == tag
            && patched[word..2 * word] == (if tag == DT_DEBUG then LE(addr, word) else bytes[word..2 * word])
            && patched[2 * word..]
               == (if tag == DT_DEBUG || tag == DT_NULL then bytes[2 * word..]
                   else Patched(bytes[2 * word..], word, addr))
  {
    hide LE, FromLE;
    var patched := Patched(bytes, word, addr);
    if TagOf(bytes, word) != DT_DEBUG && TagOf(bytes, word) != DT_NULL {
      var tail := Patched(bytes[2 * word..], word, addr);
      assert patched == bytes[..2 * word] + tail;
    }
  }

  /** Where the value of entry `k` lies. */
  function ValueOffset(k: nat, word: WordSize): nat {
    2 * word * k + word
  }

  /** The patch leaves every byte outside the value word of that DT_DEBUG entry alone, down to
      the trailing fragment, and changes nothing when there is no such entry. */
  lemma {:induction false} PatchedElsewhere(bytes: seq<byte>, word: WordSize, addr: nat)
    ensures match DebugEntry(Entries(bytes, word))
            case None => Patched(bytes, word, addr) == bytes
            case Some(k) =>
              var o := ValueOffset(k, word);
              && o + word <= |bytes|
              && Patched(bytes, word, addr) == bytes[..o] + LE(addr, word) + bytes[o + word..]
    decreases |bytes|
  {
    hide LE, FromLE, TagOf, Entries, DebugEntry, ValueOffset;
    ShortHasNone(bytes, word);
    if |bytes| < 2 * word {
    } else {
      SearchStep(bytes, word);
      ValueOffsetNext(0, word);
      var tag, rest := TagOf(bytes, word), bytes[2 * word..];
      if tag != DT_DEBUG && tag != DT_NULL {
        PatchedElsewhere(rest, word, addr);
        var later := DebugEntry(Entries(rest, word));
        assert bytes[..2 * word] + rest == bytes;
        if later.Some? {
          ValueOffsetNext(later.value, word);
          LaterPieces(bytes, 2 * word, ValueOffset(later.value, word), LE(addr, word));
        }
      }
    }
  }

  lemma ValueOffsetNext(k: nat, word: WordSize)
    ensures ValueOffset(0, word) == word
    ensures ValueOffset(k + 1, word) == 2 * word + ValueOffset(k, word)
  {
  }

  lemma LaterPieces(bytes: seq<byte>, n: nat, o: nat, w: seq<byte>)
    requires n + o + |w| <= |bytes|
    ensures bytes[..n] + (bytes[n..][..o] + w + bytes[n..][o + |w|..])
            == bytes[..n + o] + w + bytes[n + o + |w|..]
  {
  }

  // ---------- the debugger's search ----------

  /** Scans the dynamic section at `at` for DT_DEBUG, up to DT_NULL, and returns its value. */
  function FindDebug(m: View, at: nat, word: WordSize, fuel: nat): Option<nat>
    decreases fuel
  {
    if fuel == 0 then None
    else
      match FetchWord(m, at, word)
      case None => None
      case Some(tag) =>
        if tag == 21 then FetchWord(m, at + word, word)
        else if tag == 0 then None
        else FindDebug(m, at + 2 * word, word, fuel - 1)
  }

  lemma TagHeld(m: View, at: nat, bytes: seq<byte>, word: WordSize)
    requires word <= |bytes| && Holds(m, at, bytes)
    ensures FetchWord(m, at, word) == Some(TagOf(bytes, word))
  {
    HoldsSlice(m, at, bytes, 0, word);
    FetchHeld(m, at, bytes[..word]);
  }

  lemma RestHeld(m: View, at: nat, bytes: seq<byte>, word: WordSize)
    requires 2 * word <= |bytes| && Holds(m, at, bytes)
    ensures Holds(m, at + 2 * word, bytes[2 * word..])
  {
    HoldsSlice(m, at, bytes, 2 * word, |bytes|);
    assert bytes[2 * word..|bytes|] == bytes[2 * word..];
  }

  /** In a memory that holds the patched array, the debugger finds `addr`. */
  lemma {:induction false} DebuggerFindsPatch(m: View, at: nat, bytes: seq<byte>, word: WordSize, addr: u64, fuel: nat)
    requires FitsWord(addr, word) && DebugEntry(Entries(bytes, word)).Some?
    requires Holds(m, at, Patched(bytes, word, addr)) && |bytes| <= fuel
    ensures FindDebug(m, at, word, fuel) == Some(addr)
    decreases |bytes|
  {
    hide LE, FromLE, TagOf, DebugEntry, Entries, Patched, FetchWord, Holds;
    var patched := Patched(bytes, word, addr);
    ShortHasNone(bytes, word);
    SearchStep(bytes, word);
    PatchedPieces(bytes, word, addr);
    TagHeld(m, at, patched, word);
    if TagOf(bytes, word) == DT_DEBUG {
      HoldsSlice(m, at, patched, word, 2 * word);
      FetchWordHeld(m, at + word, addr, word);
    } else {
      RestHeld(m, at, patched, word);
      DebuggerFindsPatch(m, at + 2 * word, bytes[2 * word..], word, addr, fuel - 1);
    }
  }
}
