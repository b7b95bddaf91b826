/**
 * The line buffer of buffmgr/buffer_manager.py: lines are collected, one
 * line break after each, until the number of lines reaches the buffer's
 * size; the collected text is then moved to the snapshot.
 */
module LineBuffer {
  import opened Wrappers

  newtype byte = b: int | 0 <= b < 256

  const Newline: byte := 10
  const DefaultSize := 500

  /** The number of line breaks in `s`. */
  function CountNewlines(s: seq<byte>): nat {
    if s == [] then 0
    else CountNewlines(s[..|s| - 1]) + (if s[|s| - 1] == Newline then 1 else 0)
  }

  /** `s.split(b"\n")`: the pieces between line breaks, never fewer than one. */
  function Split(s: seq<byte>): (pieces: seq<seq<byte>>)
    ensures |pieces| >= 1
  {
    if s == [] then [[]]
    else
      var init := Split(s[..|s| - 1]);
      if s[|s| - 1] == Newline then init + [[]]
      else init[..|init| - 1] + [init[|init| - 1] + [s[|s| - 1]]]
  }

  /** `b"\n".join(pieces)` */
  function JoinLines(pieces: seq<seq<byte>>): seq<byte>
    requires |pieces| >= 1
  {
    if |pieces| == 1 then pieces[0]
    else JoinLines(pieces[..|pieces| - 1]) + [Newline] + pieces[|pieces| - 1]
  }

  /** Each piece followed by a line break, in order: what add_line appends. */
  function Framed(pieces: seq<seq<byte>>): seq<byte> {
    if pieces == [] then []
    else Framed(pieces[..|pieces| - 1]) + pieces[|pieces| - 1] + [Newline]
  }

  predicate NoNewline(piece: seq<byte>) {
    Newline !in piece
  }

  lemma SplitNewlineAtEnd(s: seq<byte>)
    ensures Split(s + [Newline]) == Split(s) + [[]]
  {
    assert (s + [Newline])[..|s|] == s;
  }

  lemma SplitByteAtEnd(s: seq<byte>, b: byte)
    requires b != Newline
    ensures Split(s + [b]) == Split(s)[..|Split(s)| - 1] + [Split(s)[|Split(s)| - 1] + [b]]
  {
    assert (s + [b])[..|s|] == s;
  }

  /** Growing the last piece by one byte grows the joined text by that byte. */
  lemma JoinLinesLastByte(init: seq<seq<byte>>, piece: seq<byte>, b: byte)
    ensures JoinLines(init + [piece + [b]]) == JoinLines(init + [piece]) + [b]
  {
    var n := |init|;
    assert (init + [piece + [b]])[..n] == init && (init + [piece])[..n] == init;
  }

  /** Splitting then joining gives the input back, no piece holds a line
      break, and there is one more piece than there are line breaks. */
  lemma {:induction false} SplitJoin(s: seq<byte>)
    ensures JoinLines(Split(s)) == s
    ensures forall k :: 0 <= k < |Split(s)| ==> NoNewline(Split(s)[k])
    ensures |Split(s)| == CountNewlines(s) + 1
  {
    if s != [] {
      var init, b := s[..|s| - 1], s[|s| - 1];
      assert s == init + [b];
      SplitJoin(init);
      var pieces := Split(init);
      var n := |pieces|;
      if b == Newline {
        SplitNewlineAtEnd(init);
        assert (pieces + [[]])[..n] == pieces;
      } else {
        SplitByteAtEnd(init, b);
        var front := pieces[..n - 1];
        assert pieces == front + [pieces[n - 1]];
        JoinLinesLastByte(front, pieces[n - 1], b);
        assert NoNewline(pieces[n - 1] + [b]) by {
          assert NoNewline(pieces[n - 1]);
        }
      }
    }
  }

  /** Joining pieces that hold no line break, then splitting, gives the pieces back. */
  lemma {:induction false} JoinSplit(pieces: seq<seq<byte>>)
    requires |pieces| >= 1
    requires forall k :: 0 <= k < |pieces| ==> NoNewline(pieces[k])
    ensures Split(JoinLines(pieces)) == pieces
    decreases |pieces|, |pieces[|pieces| - 1]|
  {
    var n := |pieces|;
    var init, last := pieces[..n - 1], pieces[n - 1];
    if last == [] {
      if n > 1 {
        JoinSplit(init);
        assert JoinLines(pieces) == JoinLines(init) + [Newline] + [];
        assert JoinLines(init) + [Newline] + [] == JoinLines(init) + [Newline];
        SplitNewlineAtEnd(JoinLines(init));
        assert pieces == init + [[]];
      }
    } else {
      var b := last[|last| - 1];
      var shorter := init + [last[..|last| - 1]];
      assert NoNewline(last[..|last| - 1]) by {
        assert NoNewline(last);
      }
      JoinSplit(shorter);
      assert last == last[..|last| - 1] + [b];
      assert pieces == init + [last[..|last| - 1] + [b]];
      JoinLinesLastByte(init, last[..|last| - 1], b);
      assert b != Newline by {
        assert NoNewline(last);
      }
      SplitByteAtEnd(JoinLines(shorter), b);
      assert shorter[..n - 1] == init;
    }
  }

  /** Framing each piece is joining them and ending with a line break. */
  lemma {:induction false} FramedJoin(pieces: seq<seq<byte>>)
    requires |pieces| >= 1
    ensures Framed(pieces) == JoinLines(pieces) + [Newline]
  {
    var n := |pieces|;
    if n == 1 {
      assert pieces[..0] == [];
    } else {
      FramedJoin(pieces[..n - 1]);
    }
  }

  lemma {:induction false} CountNewlinesConcat(a: seq<byte>, b: seq<byte>)
    ensures CountNewlines(a + b) == CountNewlines(a) + CountNewlines(b)
    decreases |b|
  {
    if b == [] {
      assert a + b == a;
    } else {
      CountNewlinesConcat(a, b[..|b| - 1]);
      assert (a + b)[..|a + b| - 1] == a + b[..|b| - 1];
    }
  }

  lemma {:induction false} NoNewlineCount(s: seq<byte>)
    requires NoNewline(s)
    ensures CountNewlines(s) == 0
  {
    if s != [] {
      NoNewlineCount(s[..|s| - 1]);
    }
  }

  /** Framing pieces that hold no line break adds one line break per piece. */
  lemma {:induction false} FramedCount(pieces: seq<seq<byte>>)
    requires forall k :: 0 <= k < |pieces| ==> NoNewline(pieces[k])
    ensures CountNewlines(Framed(pieces)) == |pieces|
  {
    if pieces != [] {
      var n := |pieces|;
      FramedCount(pieces[..n - 1]);
      CountNewlinesConcat(Framed(pieces[..n - 1]), pieces[n - 1]);
      CountNewlinesConcat(Framed(pieces[..n - 1]) + pieces[n - 1], [Newline]);
      NoNewlineCount(pieces[n - 1]);
      assert CountNewlines([Newline]) == 1;
    }
  }

  /** add_line appends exactly the line and one closing line break, and
      counts one line per piece. */
  lemma AppendedLine(line: seq<byte>)
    ensures Framed(Split(line)) == line + [Newline]
    ensures CountNewlines(line + [Newline]) == |Split(line)|
  {
    SplitJoin(line);
    FramedJoin(Split(line));
    FramedCount(Split(line));
  }

  class BufferManager {
    var size: int
    var buffer: seq<byte>
    var snapshot: seq<byte>
    var lineCount: int

    /** `lineCount` is the number of line breaks in `buffer`. */
    ghost predicate Counted()
      reads this
    {
      lineCount == CountNewlines(buffer)
    }

    /** Between calls the count stays below the size, unless it is zero. */
    ghost predicate Valid()
      reads this
    {
      Counted() && (lineCount == 0 || lineCount < size)
    }

    constructor (size: int := DefaultSize)
      ensures Valid()
      ensures this.size == size && buffer == [] && snapshot == [] && lineCount == 0
    {
      this.size := size;
      buffer, snapshot, lineCount := [], [], 0;
    }

    /** add_line: false exactly when the count reached the size, in which
        case everything collected, this line included, went to the snapshot. */
    method AddLine(line: seq<byte>) returns (ok: bool)
      requires Valid()
      modifies this
      ensures Valid() && size == old(size)
      ensures ok <==> old(lineCount) + |Split(line)| < size
      ensures ok ==> && buffer == old(buffer) + line + [Newline]
                     && lineCount == old(lineCount) + |Split(line)|
                     && snapshot == old(snapshot)
      ensures !ok ==> snapshot == old(buffer) + line + [Newline] && buffer == [] && lineCount == 0
    {
      var lines := Split(line);
      var needFlush := false;
      for k := 0 to |lines|
        invariant buffer == old(buffer) + Framed(lines[..k])
        invariant lineCount == old(lineCount) + k
        invariant snapshot == old(snapshot) && size == old(size)
        invariant needFlush <==> k > 0 && old(lineCount) + k >= size
      {
        assert lines[..k + 1][..k] == lines[..k];
        buffer := buffer + lines[k] + [Newline];
        lineCount := lineCount + 1;
        if lineCount >= size {
          needFlush := true;
        }
      }
      assert lines[..|lines|] == lines;
      AppendedLine(line);
      CountNewlinesConcat(old(buffer), line + [Newline]);
      if needFlush {
        var flushed := Flush();
        return false;
      }
      return true;
    }

    /** flush: moves a non-empty buffer to the snapshot; an empty one leaves
        everything as it is. Either way the buffer ends empty. */
    method Flush() returns (flushed: bool)
      requires Counted()
      modifies this
      ensures Valid() && size == old(size)
      ensures flushed <==> old(buffer) != []
      ensures flushed ==> snapshot == old(buffer)
      ensures !flushed ==> snapshot == old(snapshot) && lineCount == old(lineCount)
      ensures buffer == [] && lineCount == 0
    {
      if buffer != [] {
        snapshot := buffer;
        buffer := [];
        lineCount := 0;
        return true;
      }
      return false;
    }

    /** get_snapshot: None when the snapshot is empty, its bytes otherwise. */
    method GetSnapshot() returns (s: Option<seq<byte>>)
      ensures s == None <==> snapshot == []
      ensures s != None ==> s.value == snapshot
    {
      if snapshot == [] {
        return None;
      }
      return Some(snapshot);
    }
  }
}
