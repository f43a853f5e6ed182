/** Reading words and strings out of a partial view of memory, as a debugger does. */
module Memory {
  import opened Bytes

  /** The byte at each address that can be read. */
  type View = int -> Option<byte>

  ghost predicate Holds(m: View, base: int, bytes: seq<byte>) {
    forall i :: 0 <= i < |bytes| ==> m(base + i) == Some(bytes[i])
  }

  lemma HoldsParts(m: View, base: int, x: seq<byte>, y: seq<byte>)
    ensures Holds(m, base, x + y) <==> Holds(m, base, x) && Holds(m, base + |x|, y)
  {
    if Holds(m, base, x + y) {
      forall i | 0 <= i < |x|
        ensures m(base + i) == Some(x[i])
      {
        assert (x + y)[i] == x[i];
      }
      forall i | 0 <= i < |y|
        ensures m(base + |x| + i) == Some(y[i])
      {
        assert (x + y)[|x| + i] == y[i];
        assert m(base + (|x| + i)) == Some(y[i]);
      }
    }
    if Holds(m, base, x) && Holds(m, base + |x|, y) {
      forall i | 0 <= i < |x + y|
        ensures m(base + i) == Some((x + y)[i])
      {
        if i >= |x| {
          var j := i - |x|;
          assert m(base + |x| + j) == Some(y[j]);
          assert base + |x| + j == base + i;
        }
      }
    }
  }

  lemma HoldsSlice(m: View, base: int, bytes: seq<byte>, from: nat, to: nat)
    requires from <= to <= |bytes| && Holds(m, base, bytes)
    ensures Holds(m, base + from, bytes[from..to])
  {
    forall i | 0 <= i < to - from
      ensures m(base + from + i) == Some(bytes[from..to][i])
    {
      assert m(base + (from + i)) == Some(bytes[from + i]);
    }
  }

  lemma PartHeld(m: View, base: int, parts: seq<seq<byte>>, i: nat)
    requires i < |parts| && Holds(m, base, Flatten(parts))
    ensures Holds(m, base + PartOffset(parts, i), parts[i])
    ensures PartOffset(parts, i) + |parts[i]| <= |Flatten(parts)|
  {
    FlattenPart(parts, i);
    HoldsSlice(m, base, Flatten(parts), PartOffset(parts, i), PartOffset(parts, i) + |parts[i]|);
  }

  function Fetch(m: View, a: int, n: nat): (r: Option<seq<byte>>)
    ensures r.Some? ==> |r.value| == n
    decreases n
  {
    if n == 0 then Some([])
    else
      match m(a)
      case None => None
      case Some(b) =>
        match Fetch(m, a + 1, n - 1)
        case None => None
        case Some(rest) => Some([b] + rest)
  }

  lemma {:induction false} FetchHeld(m: View, a: int, bytes: seq<byte>)
    requires Holds(m, a, bytes)
    ensures Fetch(m, a, |bytes|) == Some(bytes)
    decreases |bytes|
  {
    if bytes == [] {
    } else {
      assert m(a + 0) == Some(bytes[0]);
      HoldsSlice(m, a, bytes, 1, |bytes|);
      FetchHeld(m, a + 1, bytes[1..]);
      assert [bytes[0]] + bytes[1..] == bytes;
    }
  }

  function FetchWord(m: View, a: int, n: nat): Option<nat> {
    match Fetch(m, a, n)
    case None => None
    case Some(s) => Some(FromLE(s))
  }

  lemma FetchWordHeld(m: View, a: int, x: nat, word: WordSize)
    requires FitsWord(x, word) && Holds(m, a, LE(x, word))
    ensures FetchWord(m, a, word) == Some(x)
  {
    FetchHeld(m, a, LE(x, word));
    FitsWordLimit(x, word);
    DecodeEncode(x, word);
  }

  // ---------- files ----------

  /** A file as a memory that begins at 0. */
  function FileView(bytes: seq<byte>): View {
    i => if 0 <= i < |bytes| then Some(bytes[i]) else None
  }

  lemma FileHolds(bytes: seq<byte>)
    ensures Holds(FileView(bytes), 0, bytes)
  {
  }

  lemma HeldInFile(bytes: seq<byte>, off: nat, piece: seq<byte>)
    requires Holds(FileView(bytes), off, piece) && piece != []
    ensures off + |piece| <= |bytes| && bytes[off..off + |piece|] == piece
  {
    assert FileView(bytes)(off + (|piece| - 1)) == Some(piece[|piece| - 1]);
    forall i | 0 <= i < |piece|
      ensures off + i < |bytes| && bytes[off + i] == piece[i]
    {
      assert FileView(bytes)(off + i) == Some(piece[i]);
    }
  }

  lemma SliceInFile(bytes: seq<byte>, off: nat, piece: seq<byte>)
    requires Holds(FileView(bytes), off, piece) && off + |piece| <= |bytes|
    ensures bytes[off..off + |piece|] == piece
  {
    if piece != [] { HeldInFile(bytes, off, piece); }
  }

  lemma WordInFile(bytes: seq<byte>, off: nat, x: nat, n: nat)
    requires n > 0 && x < Pow256(n) && Holds(FileView(bytes), off, LE(x, n))
    ensures ReadLE(bytes, off, n) == Some(x)
  {
    HeldInFile(bytes, off, LE(x, n));
    ReadBack(bytes, off, n, x);
  }

  // ---------- strings ----------

  /** The bytes before the first NUL. */
  function UpToNul(s: seq<byte>): seq<byte> {
    if s == [] || s[0] == 0 then [] else [s[0]] + UpToNul(s[1..])
  }

  /** The NUL-terminated string at `a`, if all of it can be read. */
  function CString(m: View, a: int): Option<seq<byte>>
    decreases U64_LIMIT - a
  {
    if a >= U64_LIMIT then None
    else
      match m(a)
      case None => None
      case Some(b) =>
        if b == 0 then Some([])
        else
          match CString(m, a + 1)
          case None => None
          case Some(rest) => Some([b] + rest)
  }

  lemma {:induction false} CStringHeld(m: View, a: int, s: seq<byte>)
    requires Holds(m, a, s + [0]) && a + |s| < U64_LIMIT
    ensures CString(m, a) == Some(UpToNul(s))
    decreases |s|
  {
    assert m(a + 0) == Some((s + [0])[0]);
    if s == [] || s[0] == 0 {
    } else {
      HoldsSlice(m, a, s + [0], 1, |s| + 1);
      assert (s + [0])[1..] == s[1..] + [0];
      CStringHeld(m, a + 1, s[1..]);
    }
  }

  lemma {:induction false} NulFree(s: seq<byte>)
    ensures 0 !in s ==> UpToNul(s) == s
  {
    if s == [] {
    } else {
      NulFree(s[1..]);
      assert s == [s[0]] + s[1..];
    }
  }
}
