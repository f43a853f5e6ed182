/** The ordered mapping table and the injection of one capture (src/augment.rs). */
module Mappings {
  import opened Bytes
  import opened Model
  import Ascending

  type Table = map<u64, Mapping>

  /** Bytes captured from the crashed process at a virtual address. */
  datatype Capture = Capture(address: u64, data: seq<byte>)

  /** What an injection leaves behind: the table, changed or not, and the outcome. */
  datatype Injection = Injection(table: Table, outcome: Result<()>)

  /** The least key whose mapping contains `a`: the first hit in ascending order. */
  function FindContaining(t: Table, a: int): (r: Option<u64>)
    ensures r.Some? ==> r.value in t && t[r.value].Contains(a)
    ensures r.Some? ==> forall k :: k in t && k < r.value ==> !t[k].Contains(a)
    ensures r.None? ==> forall k :: k in t ==> !t[k].Contains(a)
    decreases |t|
  {
    if t == map[] then None
    else
      var first := Ascending.Least(t.Keys);
      if t[first].Contains(a) then Some(first)
      else
        var rest := t - {first};
        assert forall k :: k in t ==> k == first || (k in rest && rest[k] == t[k]);
        assert |rest| < |t| by { SmallerWithout(t, first); }
        FindContaining(rest, a)
  }

  lemma SmallerWithout(t: Table, k: u64)
    requires k in t
    ensures |t - {k}| < |t|
  {
    assert (t - {k}).Keys == t.Keys - {k};
  }

  /** The part of a mapping below `at`; its bytes stay as they are. */
  function Below(whole: Mapping, key: u64, at: u64): Mapping {
    if at == key then whole else whole.(end := at)
  }

  /** The file offset of the part of a mapping from `at` on. */
  function OffsetFrom(whole: Mapping, key: u64, at: u64): int {
    if at == key || whole.filename.None? then whole.offset else whole.offset + (at - key)
  }

  /** Cuts the mapping at `key` at address `at`, where `data` begins. */
  function Split(t: Table, key: u64, at: u64, data: seq<byte>): Injection
    requires key in t
  {
    var whole := t[key];
    var cut := t[key := Below(whole, key, at)];
    var offset := OffsetFrom(whole, key, at);
    if at < key && whole.filename.Some? then Injection(cut, Err(ArithmeticPanic))
    else if offset >= U64_LIMIT then Injection(cut, Err(IntegerOverflow))
    else Injection(cut[at := whole.(start := at, offset := offset, data := data)], Ok(()))
  }

  function Synthetic(start: u64, end: u64, data: seq<byte>): Mapping {
    Mapping(start, end, 0, READ_WRITE, None, data)
  }

  /** Adds an anonymous mapping for a capture outside every mapping. */
  function Synthesize(t: Table, start: u64, end: nat, data: seq<byte>): Injection {
    if end >= U64_LIMIT then Injection(t, Err(IntegerOverflow))
    else if start >= end then Injection(t, Err(InvalidAddressRange))
    else Injection(t[start := Synthetic(start, end, data)], Ok(()))
  }

  /** The injection once the owner of the address is known. */
  function InjectAt(t: Table, c: Capture, page: u64, owner: Option<u64>): Injection
    requires page > 0 && (owner.Some? ==> owner.value in t)
  {
    var start := Down(c.address, page);
    if Up(c.address - start + |c.data|, page) >= U64_LIMIT then Injection(t, Err(IntegerOverflow))
    else
      var padded := Padded(c.address - start, c.data, page);
      match owner
      case Some(key) => Split(t, key, start, padded)
      case None => Synthesize(t, start, Up(c.address + |c.data|, page), padded)
  }

  function Inject(t: Table, c: Capture, page: u64): Injection {
    if page == 0 then Injection(t, Err(InvalidAlignment))
    else InjectAt(t, c, page, FindContaining(t, c.address))
  }

  /** The mappings in the order a BTreeMap visits them. */
  function Values(t: Table): (ms: seq<Mapping>)
    ensures |ms| == |Ascending.Keys(t.Keys)|
    ensures forall i :: 0 <= i < |ms| ==> Ascending.Keys(t.Keys)[i] in t && ms[i] == t[Ascending.Keys(t.Keys)[i]]
  {
    var keys := Ascending.Keys(t.Keys);
    seq(|keys|, i requires 0 <= i < |keys| => t[keys[i]])
  }

  /** The mapping table of a process, updated in place. */
  class MappingTable {
    var entries: Table

    constructor (entries: Table)
      ensures this.entries == entries
    {
      this.entries := entries;
    }

    method FindKey(a: u64) returns (r: Option<u64>)
      ensures r == FindContaining(entries, a)
    {
      var rest := entries;
      while rest != map[]
        invariant FindContaining(rest, a) == FindContaining(entries, a)
        invariant forall k :: k in rest ==> k in entries && rest[k] == entries[k]
        decreases |rest|
      {
        var key := Ascending.Least(rest.Keys);
        if rest[key].Contains(a) {
          return Some(key);
        }
        SmallerWithout(rest, key);
        rest := rest - {key};
      }
      return None;
    }

    method SplitAt(key: u64, aligned: u64, mappingData: seq<byte>) returns (r: Result<()>)
      requires key in entries
      modifies this
      ensures Injection(entries, r) == Split(old(entries), key, aligned, mappingData)
    {
      var dataMapping := entries[key];
      if aligned != key {
        entries := entries[key := entries[key].(end := aligned)];
        if dataMapping.filename.Some? {
          if aligned < key {
            return Err(ArithmeticPanic);
          }
          var shifted := dataMapping.offset + (aligned - key);
          if shifted >= U64_LIMIT {
            return Err(IntegerOverflow);
          }
          dataMapping := dataMapping.(offset := shifted);
        }
      }
      dataMapping := dataMapping.(start := aligned, data := mappingData);
      entries := entries[dataMapping.start := dataMapping];
      return Ok(());
    }

    method AddSynthetic(aligned: u64, dataEnd: nat, page: u64, mappingData: seq<byte>) returns (r: Result<()>)
      requires page > 0
      modifies this
      ensures Injection(entries, r) == Synthesize(old(entries), aligned, Up(dataEnd, page), mappingData)
    {
      if dataEnd >= U64_LIMIT {
        return Err(IntegerOverflow);
      }
      var end :- AlignUp(dataEnd, page);
      var mapping :- NewMapping(aligned, end, READ_WRITE);
      mapping := mapping.(data := mappingData);
      entries := entries[mapping.start := mapping];
      return Ok(());
    }

    method AddData(data: seq<byte>, address: u64, page: u64) returns (r: Result<()>)
      modifies this
      ensures Injection(entries, r) == Inject(old(entries), Capture(address, data), page)
    {
      hide FindContaining, AlignDown, AlignUp, Padded, Split, Synthesize, Down, Up;
      var aligned :- AlignDown(address, page);
      var mappingData :- PaddedVec(address - aligned, data, page);

      var containing := FindKey(address);
      if containing.Some? {
        r := SplitAt(containing.value, aligned, mappingData);
        return;
      }
      r := AddSynthetic(aligned, address + |data|, page, mappingData);
    }
  }
}
