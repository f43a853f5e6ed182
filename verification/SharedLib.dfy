/** The recogniser of shared-library names (src/rust_minidump.rs). */
module SharedLib {
  import opened Bytes

  const DOT: byte := 0x2e
  const SO: seq<byte> := [0x73, 0x6f]

  predicate IsDigit(b: byte) { 0x30 <= b <= 0x39 }

  predicate AllDigits(s: seq<byte>) {
    forall i :: 0 <= i < |s| ==> IsDigit(s[i])
  }

  // ---------- the language ----------

  predicate AsciiDigits(s: seq<byte>) {
    forall i :: 0 <= i < |s| ==> 0x30 <= s[i] <= 0x39
  }

  lemma DigitsAre(s: seq<byte>)
    ensures AllDigits(s) <==> AsciiDigits(s)
  {
  }

  /** A version suffix: any number of segments, each a dot and digits (possibly none). */
  ghost predicate IsVersion(s: seq<byte>)
    decreases |s|
  {
    s == [] || exists segment: seq<byte>, rest: seq<byte> ::
      |rest| < |s| && s == [0x2e] + segment + rest && AsciiDigits(segment) && IsVersion(rest)
  }

  /** Some prefix, then ".so", then a version suffix. */
  ghost predicate IsSharedLib(name: seq<byte>) {
    exists prefix: seq<byte>, version: seq<byte> ::
      name == prefix + [0x2e, 0x73, 0x6f] + version && IsVersion(version)
  }

  /** A version suffix is empty, or begins with a dot and holds only dots and digits. */
  predicate VersionBytes(s: seq<byte>) {
    s == [] || (s[0] == DOT && forall i :: 0 <= i < |s| ==> s[i] == DOT || IsDigit(s[i]))
  }

  lemma FirstSegment(s: seq<byte>) returns (segment: seq<byte>, rest: seq<byte>)
    requires IsVersion(s) && s != []
    ensures |rest| < |s| && s == [DOT] + segment + rest && AllDigits(segment) && IsVersion(rest)
  {
    hide AllDigits, AsciiDigits;
    segment, rest :| |rest| < |s| && s == [0x2e] + segment + rest && AsciiDigits(segment) && IsVersion(rest);
    DigitsAre(segment);
  }

  lemma {:induction false} VersionIsBytes(s: seq<byte>)
    ensures IsVersion(s) ==> VersionBytes(s)
    decreases |s|
  {
    hide VersionBytes, AllDigits, IsVersion;
    if s == [] {
      NothingIsBytes();
    } else if IsVersion(s) {
      var segment, rest := FirstSegment(s);
      VersionIsBytes(rest);
      BytesGrow(segment, rest);
    }
  }

  lemma NothingIsBytes()
    ensures VersionBytes([])
  {
  }

  lemma BytesGrow(segment: seq<byte>, rest: seq<byte>)
    requires AllDigits(segment) && VersionBytes(rest)
    ensures VersionBytes([DOT] + segment + rest)
  {
    var s := [DOT] + segment + rest;
    forall i | 0 <= i < |s|
      ensures s[i] == DOT || IsDigit(s[i])
    {
      if 1 <= i <= |segment| { assert s[i] == segment[i - 1]; }
      if i > |segment| { assert s[i] == rest[i - 1 - |segment|]; }
    }
  }

  /** Adding a segment of digits in front of a version gives a version. */
  lemma VersionGrows(segment: seq<byte>, rest: seq<byte>)
    requires AllDigits(segment) && IsVersion(rest)
    ensures IsVersion([DOT] + segment + rest)
  {
    DigitsAre(segment);
  }

  // ---------- the recogniser ----------

  /** The last dot before `end`. */
  function LastDot(bytes: seq<byte>, end: nat): (r: Option<nat>)
    requires end <= |bytes|
    ensures r.Some? ==> r.value < end && bytes[r.value] == DOT
    ensures forall i :: (if r.Some? then r.value + 1 else 0) <= i < end ==> bytes[i] != DOT
  {
    if end == 0 then None
    else if bytes[end - 1] == DOT then Some(end - 1)
    else LastDot(bytes, end - 1)
  }

  /** Strips version segments from the end until a ".so", or something else, is found. */
  method LooksLikeSharedLib(bytes: seq<byte>) returns (r: bool)
    ensures r == IsSharedLib(bytes)
  {
    hide IsVersion, IsSharedLib;
    var i := |bytes|;
    LibHasSo(bytes);
    NothingIsVersion(bytes);
    while true
      invariant 0 <= i <= |bytes|
      invariant IsVersion(bytes[i..])
      invariant IsSharedLib(bytes) ==> EndsBefore(bytes, i)
      decreases i
    {
      var dot := LastDot(bytes, i);
      if dot.None? {
        NoDotNoLib(bytes, i);
        return false;
      }
      var pos := dot.value;
      var suffix := bytes[pos + 1..i];
      assert bytes[pos..] == [DOT] + suffix + bytes[i..];
      if suffix == SO {
        FoundSo(bytes, pos, i);
        return true;
      }
      if AllDigits(suffix) {
        VersionGrows(suffix, bytes[i..]);
        StripSegment(bytes, pos, i);
        i := pos;
      } else {
        NotASegment(bytes, pos, i);
        return false;
      }
    }
  }

  /** A ".so" that makes the name a library ends at or before `i`. */
  ghost predicate EndsBefore(bytes: seq<byte>, i: nat)
    requires i <= |bytes|
  {
    exists j :: 0 <= j && j + 3 <= i && SoAt(bytes, j)
  }

  /** A ".so" at `j` followed by a version suffix. */
  ghost predicate SoAt(bytes: seq<byte>, j: nat) {
    j + 3 <= |bytes| && bytes[j..j + 3] == [DOT] + SO && IsVersion(bytes[j + 3..])
  }

  lemma LibHasSo(bytes: seq<byte>)
    ensures IsSharedLib(bytes) <==> exists j :: 0 <= j && SoAt(bytes, j)
  {
    if IsSharedLib(bytes) {
      var prefix: seq<byte>, version: seq<byte> :| bytes == prefix + [0x2e, 0x73, 0x6f] + version && IsVersion(version);
      assert bytes[|prefix|..|prefix| + 3] == [DOT] + SO && bytes[|prefix| + 3..] == version;
      assert SoAt(bytes, |prefix|);
    }
    if j :| 0 <= j && SoAt(bytes, j) {
      assert [DOT] + SO == [0x2e, 0x73, 0x6f];
      assert bytes == bytes[..j] + [0x2e, 0x73, 0x6f] + bytes[j + 3..];
    }
  }

  lemma NoDotNoLib(bytes: seq<byte>, i: nat)
    requires i <= |bytes| && LastDot(bytes, i).None?
    ensures !EndsBefore(bytes, i)
  {
    if EndsBefore(bytes, i) {
      var j :| 0 <= j && j + 3 <= i && SoAt(bytes, j);
      SoBytes(bytes, j);
    }
  }

  lemma NothingIsVersion(bytes: seq<byte>)
    ensures IsVersion(bytes[|bytes|..])
  {
  }

  lemma FoundSo(bytes: seq<byte>, pos: nat, i: nat)
    requires pos < i <= |bytes| && bytes[pos] == DOT && bytes[pos + 1..i] == SO && IsVersion(bytes[i..])
    ensures IsSharedLib(bytes)
  {
    hide IsVersion;
    assert i == pos + 3;
    assert bytes[pos..i] == [bytes[pos]] + bytes[pos + 1..i];
    assert bytes == bytes[..pos] + [0x2e, 0x73, 0x6f] + bytes[i..];
  }

  lemma SoBytes(bytes: seq<byte>, j: nat)
    requires SoAt(bytes, j)
    ensures bytes[j] == DOT && bytes[j + 1] == SO[0] && bytes[j + 2] == SO[1]
  {
    var so := bytes[j..j + 3];
    assert so[0] == bytes[j] && so[1] == bytes[j + 1] && so[2] == bytes[j + 2];
  }

  /** Stripping a segment of digits loses no ".so". */
  lemma StripSegment(bytes: seq<byte>, pos: nat, i: nat)
    requires pos < i <= |bytes| && LastDot(bytes, i) == Some(pos) && AllDigits(bytes[pos + 1..i])
    ensures EndsBefore(bytes, i) ==> EndsBefore(bytes, pos)
  {
    hide IsVersion, LastDot;
    if EndsBefore(bytes, i) {
      var j :| 0 <= j && j + 3 <= i && SoAt(bytes, j);
      SoBytes(bytes, j);
      assert pos + 1 < i ==> bytes[pos + 1..i][0] == bytes[pos + 1];
      assert j != pos;
      assert j + 3 <= pos;
    }
  }

  /** Behind the dot of a ".so", the last segment is "so" itself or digits. */
  lemma SegmentAfterSo(bytes: seq<byte>, j: nat, pos: nat, i: nat)
    requires j + 3 <= i <= |bytes| && SoAt(bytes, j) && LastDot(bytes, i) == Some(pos)
    ensures bytes[pos + 1..i] == SO || AllDigits(bytes[pos + 1..i])
  {
    hide IsVersion;
    SoBytes(bytes, j);
    var version := bytes[j + 3..];
    VersionIsBytes(version);
    if i == j + 3 {
      assert pos == j;
    } else {
      assert version[0] == bytes[j + 3];
      assert j + 3 <= pos;
      assert forall k :: pos < k < i ==> bytes[k] == version[k - j - 3];
    }
  }

  /** A last segment that is neither "so" nor digits rules out a library. */
  lemma NotASegment(bytes: seq<byte>, pos: nat, i: nat)
    requires pos < i <= |bytes| && LastDot(bytes, i) == Some(pos)
    requires bytes[pos + 1..i] != SO && !AllDigits(bytes[pos + 1..i])
    ensures !EndsBefore(bytes, i)
  {
    hide IsVersion, LastDot, SoAt;
    if EndsBefore(bytes, i) {
      var j :| 0 <= j && j + 3 <= i && SoAt(bytes, j);
      SegmentAfterSo(bytes, j, pos, i);
    }
  }
}
