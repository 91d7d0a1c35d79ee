/** Writing lines to a byte sink and reading them back from a byte source. */
module LineCodec {
  import opened Naturals

  type Line = seq<Byte>

  const CR: Byte := 13
  const LF: Byte := 10
  const PAGE := 8192

  predicate IsEnd(b: Byte) {
    b == CR || b == LF
  }

  /** The line holds no end-of-line byte. */
  predicate Free(line: Line) {
    forall i :: 0 <= i < |line| ==> !IsEnd(line[i])
  }

  predicate AllFree(lines: seq<Line>) {
    forall i :: 0 <= i < |lines| ==> Free(lines[i])
  }

  predicate IsEndLine(eol: Line) {
    eol == [LF] || eol == [CR, LF]
  }

  /** The lines, each followed by the end-line mark. */
  function Encode(lines: seq<Line>, eol: Line): seq<Byte> {
    if lines == [] then [] else Encode(lines[..|lines| - 1], eol) + lines[|lines| - 1] + eol
  }

  /** How many bytes the lines take, with a mark of so many bytes behind each. */
  ghost function Size(lines: seq<Line>, mark: nat): nat {
    if lines == [] then 0 else Size(lines[..|lines| - 1], mark) + |lines[|lines| - 1]| + mark
  }

  /** Every line, empty or not, stands with its mark where the lines before it end. */
  lemma {:induction false} LineStandsAt(lines: seq<Line>, eol: Line, k: nat)
    requires k < |lines|
    ensures |Encode(lines, eol)| == Size(lines, |eol|)
    ensures Size(lines[..k], |eol|) + |lines[k]| + |eol| <= |Encode(lines, eol)|
    ensures var at := Size(lines[..k], |eol|);
            Encode(lines, eol)[at..at + |lines[k]| + |eol|] == lines[k] + eol
  {
    var n := |lines| - 1;
    EncodeSize(lines[..n], eol);
    var before := Encode(lines[..n], eol);
    assert Encode(lines, eol) == before + (lines[n] + eol);
    if k < n {
      LineStandsAt(lines[..n], eol, k);
      assert lines[..n][..k] == lines[..k];
      var at := Size(lines[..k], |eol|);
      assert Encode(lines, eol)[at..at + |lines[k]| + |eol|] == before[at..at + |lines[k]| + |eol|];
    }
  }

  lemma EncodeMore(lines: seq<Line>, eol: Line, k: nat)
    requires k < |lines|
    ensures Encode(lines[..k + 1], eol) == Encode(lines[..k], eol) + (lines[k] + eol)
  {
    assert lines[..k + 1][..k] == lines[..k];
  }

  lemma {:induction false} EncodeSize(lines: seq<Line>, eol: Line)
    ensures |Encode(lines, eol)| == Size(lines, |eol|)
  {
    if lines != [] {
      EncodeSize(lines[..|lines| - 1], eol);
    }
  }

  function NonEmpty(lines: seq<Line>): seq<Line> {
    if lines == [] then []
    else
      var last := lines[|lines| - 1];
      NonEmpty(lines[..|lines| - 1]) + if last == [] then [] else [last]
  }

  // ----- splitting at end-of-line bytes

  /** Lines with the end-of-line byte that closes each. */
  function Closed(lines: seq<Line>, ends: seq<Byte>): seq<Byte>
    requires |lines| == |ends|
  {
    if lines == [] then []
    else
      var n := |lines| - 1;
      Closed(lines[..n], ends[..n]) + lines[n] + [ends[n]]
  }

  /** The closed lines of a text, empty ones included, and the bytes after the last of them. */
  function Split(bytes: seq<Byte>): (seq<Line>, Line) {
    if bytes == [] then ([], [])
    else
      var n := |bytes| - 1;
      var (lines, rest) := Split(bytes[..n]);
      if IsEnd(bytes[n]) then (lines + [rest], []) else (lines, rest + [bytes[n]])
  }

  /** The end-of-line bytes of a text. */
  function Ends(bytes: seq<Byte>): seq<Byte> {
    if bytes == [] then []
    else
      var n := |bytes| - 1;
      Ends(bytes[..n]) + if IsEnd(bytes[n]) then [bytes[n]] else []
  }

  /** Splitting loses nothing: closing the lines again restores the text. */
  lemma {:induction false} SplitRestores(bytes: seq<Byte>)
    ensures |Split(bytes).0| == |Ends(bytes)|
    ensures AllFree(Split(bytes).0) && Free(Split(bytes).1)
    ensures forall i :: 0 <= i < |Ends(bytes)| ==> IsEnd(Ends(bytes)[i])
    ensures Closed(Split(bytes).0, Ends(bytes)) + Split(bytes).1 == bytes
  {
    if bytes != [] {
      var n := |bytes| - 1;
      SplitRestores(bytes[..n]);
      var (lines, rest) := Split(bytes[..n]);
      var ends := Ends(bytes[..n]);
      assert bytes == bytes[..n] + [bytes[n]];
      if IsEnd(bytes[n]) {
        var lines', ends' := lines + [rest], ends + [bytes[n]];
        assert lines'[..|lines|] == lines && ends'[..|lines|] == ends;
        assert Closed(lines', ends') == Closed(lines, ends) + rest + [bytes[n]];
      } else {
        assert Ends(bytes) == ends;
        assert Closed(lines, ends) + (rest + [bytes[n]]) == Closed(lines, ends) + rest + [bytes[n]];
      }
    }
  }

  /** Appending bytes without an end only extends the rest. */
  lemma {:induction false} SplitFree(bytes: seq<Byte>, tail: Line)
    requires Free(tail)
    ensures Split(bytes + tail) == (Split(bytes).0, Split(bytes).1 + tail)
  {
    if tail == [] {
      assert bytes + tail == bytes;
      assert Split(bytes).1 + [] == Split(bytes).1;
    } else {
      var n := |tail| - 1;
      SplitFree(bytes, tail[..n]);
      assert (bytes + tail)[..|bytes + tail| - 1] == bytes + tail[..n];
      assert Split(bytes).1 + tail == Split(bytes).1 + tail[..n] + [tail[n]];
    }
  }

  lemma SplitEnd(bytes: seq<Byte>, end: Byte)
    requires IsEnd(end)
    ensures Split(bytes + [end]) == (Split(bytes).0 + [Split(bytes).1], [])
  {
    assert (bytes + [end])[..|bytes|] == bytes;
  }

  lemma NonEmptyAppend(lines: seq<Line>, line: Line)
    ensures NonEmpty(lines + [line]) == NonEmpty(lines) + if line == [] then [] else [line]
  {
    assert (lines + [line])[..|lines|] == lines;
  }

  /** What reading a text as lines gives: its closed lines without the empty ones. */
  function LinesOf(bytes: seq<Byte>): seq<Line> {
    NonEmpty(Split(bytes).0)
  }

  /** Each line, followed by as many empty ones as the mark has bytes beyond the first. */
  ghost function Spaced(lines: seq<Line>, blanks: nat): seq<Line> {
    if lines == [] then []
    else Spaced(lines[..|lines| - 1], blanks) + [lines[|lines| - 1]] + seq(blanks, _ => [])
  }

  /** Splitting what was written gives back every line, the empty ones too. */
  lemma {:induction false} SplitEncode(lines: seq<Line>, eol: Line)
    requires AllFree(lines) && IsEndLine(eol)
    ensures Split(Encode(lines, eol)) == (Spaced(lines, |eol| - 1), [])
    ensures eol == [LF] ==> Split(Encode(lines, eol)).0 == lines
  {
    if lines != [] {
      var n := |lines| - 1;
      var before, line := Encode(lines[..n], eol), lines[n];
      SplitEncode(lines[..n], eol);
      SplitFree(before, line);
      assert [] + line == line;
      var closed := Split(before).0;
      SplitEnd(before + line, eol[0]);
      if eol == [LF] {
        assert before + line + eol == before + line + [LF];
        assert closed + [line] + seq(0, _ => []) == closed + [line];
        assert lines == lines[..n] + [line];
      } else {
        SplitEnd(before + line + [CR], LF);
        assert before + line + eol == before + line + [CR] + [LF];
        assert closed + [line] + seq(1, _ => []) == closed + [line] + [[]];
      }
    }
  }

  /** Writing lines and reading them gives the lines that are not empty. */
  lemma {:induction false} DecodeEncode(lines: seq<Line>, eol: Line)
    requires AllFree(lines) && IsEndLine(eol)
    ensures LinesOf(Encode(lines, eol)) == NonEmpty(lines) && Split(Encode(lines, eol)).1 == []
  {
    if lines != [] {
      var n := |lines| - 1;
      var before, line := Encode(lines[..n], eol), lines[n];
      DecodeEncode(lines[..n], eol);
      SplitFree(before, line);
      assert [] + line == line;
      var (closed, _) := Split(before);
      SplitEnd(before + line, eol[0]);
      NonEmptyAppend(closed, line);
      if eol == [LF] {
        assert before + line + eol == before + line + [LF];
      } else {
        SplitEnd(before + line + [CR], LF);
        NonEmptyAppend(closed + [line], []);
        assert before + line + eol == before + line + [CR] + [LF];
      }
    }
  }

  lemma {:induction false} NonEmptyKeeps(lines: seq<Line>, i: nat)
    requires i < |lines| && lines[i] != []
    ensures lines[i] in NonEmpty(lines)
  {
    if i < |lines| - 1 {
      NonEmptyKeeps(lines[..|lines| - 1], i);
    }
  }

  lemma {:induction false} NonEmptyFrom(lines: seq<Line>, line: Line)
    requires line in NonEmpty(lines)
    ensures line in lines && line != []
  {
    var n := |lines| - 1;
    if line in NonEmpty(lines[..n]) {
      NonEmptyFrom(lines[..n], line);
    }
  }

  lemma {:induction false} NonEmptyOfFull(lines: seq<Line>)
    ensures NonEmpty(lines) == lines <==> [] !in lines
  {
    if [] in lines {
      if NonEmpty(lines) == lines {
        NonEmptyFrom(lines, []);
        assert false;
      }
    } else if lines != [] {
      var n := |lines| - 1;
      NonEmptyOfFull(lines[..n]);
      assert lines == lines[..n] + [lines[n]];
    }
  }

  /** Exactly when the non-empty lines come back: when no line holds an end-of-line byte. */
  lemma RoundTripExactly(lines: seq<Line>, eol: Line)
    requires IsEndLine(eol)
    ensures LinesOf(Encode(lines, eol)) == NonEmpty(lines) <==> AllFree(lines)
    ensures LinesOf(Encode(lines, eol)) == lines <==> AllFree(lines) && [] !in lines
  {
    var bytes := Encode(lines, eol);
    SplitRestores(bytes);
    NonEmptyOfFull(lines);
    if AllFree(lines) {
      DecodeEncode(lines, eol);
    } else {
      var i :| 0 <= i < |lines| && !Free(lines[i]);
      NonEmptyKeeps(lines, i);
      if lines[i] in LinesOf(bytes) {
        NonEmptyFrom(Split(bytes).0, lines[i]);
        assert false;
      }
      assert lines[i] in lines;
    }
  }

  /** A last line without an end is dropped, and that is all that is lost: with an end behind
      it, it is there. */
  lemma UnclosedLineDropped(bytes: seq<Byte>, end: Byte)
    requires IsEnd(end)
    ensures LinesOf(bytes + [end]) == LinesOf(bytes) + if Split(bytes).1 == [] then [] else [Split(bytes).1]
  {
    SplitEnd(bytes, end);
    NonEmptyAppend(Split(bytes).0, Split(bytes).1);
  }

  // ----- the writer

  /** A sink whose i-th write takes at most accepts[i] bytes; later ones take everything. */
  class Writer {
    var output: seq<Byte>
    var accepts: seq<nat>

    constructor (accepts: seq<nat>)
      ensures output == [] && this.accepts == accepts
    {
      output, this.accepts := [], accepts;
    }

    method Write(buffer: seq<Byte>) returns (written: nat)
      modifies this
      ensures written <= |buffer| && output == old(output) + buffer[..written]
      ensures written == if old(accepts) != [] && old(accepts)[0] < |buffer| then old(accepts)[0] else |buffer|
      ensures accepts == if old(accepts) == [] then [] else old(accepts)[1..]
    {
      written := |buffer|;
      if accepts != [] {
        if accepts[0] < written {
          written := accepts[0];
        }
        accepts := accepts[1..];
      }
      output := output + buffer[..written];
    }

    /** Writes one line and its end, or a part of them: a part exactly when one of the two
        writes is not taken in full. */
    method WriteLine(line: Line, eol: Line) returns (ok: bool, ghost part: seq<Byte>)
      modifies this
      ensures output == old(output) + part
      ensures ok <==> TakesLine(old(accepts), line, eol)
      ensures ok ==> part == line + eol && accepts == Later(old(accepts), 2)
      ensures !ok ==> part == PartOf(old(accepts), line, eol) && part < line + eol
    {
      var n := Write(line);
      part := line[..n];
      if n != |line| {
        return false, part;
      }
      var m := Write(eol);
      part := line + eol[..m];
      ok := m == |eol|;
    }

    /** Writes lines until one is not taken in full. The count is that of the lines written
        completely; of the next one, its end included, only a part has been written. */
    method WriteLines(lines: seq<Line>, eol: Line) returns (result: nat, ghost part: seq<Byte>)
      modifies this
      ensures result <= |lines|
      ensures output == old(output) + Encode(lines[..result], eol) + part
      ensures AllTaken(old(accepts), lines, eol, result)
      ensures result == |lines| ==> part == []
      ensures result < |lines| ==>
                && !TakesLine(Later(old(accepts), 2 * result), lines[result], eol)
                && part == PartOf(Later(old(accepts), 2 * result), lines[result], eol) && part < lines[result] + eol
      ensures old(accepts) == [] ==> result == |lines|
    {
      result, part := 0, [];
      LaterNone(accepts);
      assert old(output) + Encode(lines[..0], eol) == old(output);
      assert AllTaken(accepts, lines, eol, 0);
      hide Later, TakesLine, AllTaken, PartOf, Encode;
      while result < |lines|
        invariant result <= |lines| && part == []
        invariant output == old(output) + Encode(lines[..result], eol)
        invariant accepts == Later(old(accepts), 2 * result)
        invariant AllTaken(old(accepts), lines, eol, result)
      {
        EncodeMore(lines, eol, result);
        OneMoreTaken(old(accepts), lines, eol, result);
        LaterMore(old(accepts), 2 * result, 2);
        LaterNone(old(accepts));
        EagerTakes(Later(old(accepts), 2 * result), lines[result], eol);
        var ok;
        ok, part := WriteLine(lines[result], eol);
        if !ok {
          return;
        }
        assert old(output) + Encode(lines[..result], eol) + part == old(output) + Encode(lines[..result + 1], eol);
        result, part := result + 1, [];
      }
    }
  }

  /** What a sink still has to say after n writes. */
  ghost function Later(accepts: seq<nat>, n: nat): seq<nat> {
    if n <= |accepts| then accepts[n..] else []
  }

  lemma LaterNone(accepts: seq<nat>)
    ensures Later(accepts, 0) == accepts
    ensures accepts == [] ==> forall n: nat :: Later(accepts, n) == []
  {
  }

  lemma LaterMore(accepts: seq<nat>, n: nat, m: nat)
    ensures Later(Later(accepts, n), m) == Later(accepts, n + m)
  {
  }

  /** A sink with nothing more to say takes everything. */
  lemma EagerTakes(accepts: seq<nat>, line: Line, eol: Line)
    ensures accepts == [] ==> TakesLine(accepts, line, eol)
  {
  }

  /** The next write is taken in full. */
  ghost predicate Takes(accepts: seq<nat>, size: nat) {
    accepts == [] || accepts[0] >= size
  }

  /** The next two writes, of a line and its end, are. */
  ghost predicate TakesLine(accepts: seq<nat>, line: Line, eol: Line) {
    Takes(accepts, |line|) && Takes(Later(accepts, 1), |eol|)
  }

  /** So are those of the first n lines. */
  ghost predicate AllTaken(accepts: seq<nat>, lines: seq<Line>, eol: Line, n: nat)
    requires n <= |lines|
  {
    forall i: nat :: i < n ==> TakesLine(Later(accepts, 2 * i), lines[i], eol)
  }

  lemma OneMoreTaken(accepts: seq<nat>, lines: seq<Line>, eol: Line, n: nat)
    requires n < |lines| && AllTaken(accepts, lines, eol, n)
    ensures AllTaken(accepts, lines, eol, n + 1) <==> TakesLine(Later(accepts, 2 * n), lines[n], eol)
  {
    hide TakesLine;
  }

  /** What is written of a line that is not taken in full. */
  ghost function PartOf(accepts: seq<nat>, line: Line, eol: Line): seq<Byte>
    requires !TakesLine(accepts, line, eol)
  {
    if !Takes(accepts, |line|) then line[..accepts[0]] else line + eol[..Later(accepts, 1)[0]]
  }

  // ----- the reader

  /** How much a reader hands over that is asked for pages until one is not full, when its
      i-th read delivers at most delivers[i] bytes. */
  function Delivered(size: nat, delivers: seq<nat>): (n: nat)
    ensures n <= size
    decreases size, |delivers|
  {
    var page := if size < PAGE then size else PAGE;
    var got := if delivers != [] && delivers[0] < page then delivers[0] else page;
    if got < PAGE then got
    else PAGE + Delivered(size - PAGE, if delivers == [] then [] else delivers[1..])
  }

  /** Every read before the end delivers a full page, and the last one all that is left. */
  predicate FullPages(size: nat, delivers: seq<nat>)
    decreases size
  {
    delivers == [] || (if size < PAGE then delivers[0] >= size
                       else delivers[0] >= PAGE && FullPages(size - PAGE, delivers[1..]))
  }

  /** Exactly when reading all bytes gives all bytes: when no read but the last is short. */
  lemma {:induction false} CompleteExactly(size: nat, delivers: seq<nat>)
    ensures Delivered(size, delivers) == size <==> FullPages(size, delivers)
    decreases size
  {
    if size >= PAGE {
      CompleteExactly(size - PAGE, if delivers == [] then [] else delivers[1..]);
    }
  }

  /** What the next read delivers when so many bytes are left. */
  ghost function Got(size: nat, delivers: seq<nat>): nat {
    var page := if size < PAGE then size else PAGE;
    if delivers != [] && delivers[0] < page then delivers[0] else page
  }

  /** Reading all bytes gives k full pages and one read that is not full, the first such. */
  lemma {:induction false} DeliveredPages(size: nat, delivers: seq<nat>) returns (k: nat)
    ensures k * PAGE <= size && Got(size - k * PAGE, Later(delivers, k)) < PAGE
    ensures Delivered(size, delivers) == k * PAGE + Got(size - k * PAGE, Later(delivers, k))
    ensures forall i: nat :: i < k ==> Got(size - i * PAGE, Later(delivers, i)) == PAGE
    decreases size, |delivers|
  {
    LaterNone(delivers);
    if Got(size, delivers) < PAGE {
      k := 0;
    } else {
      var later := Later(delivers, 1);
      assert Delivered(size, delivers) == PAGE + Delivered(size - PAGE, later);
      var m := DeliveredPages(size - PAGE, later);
      hide Later, Got, Delivered;
      k := m + 1;
      LaterMore(delivers, 1, m);
      assert size - PAGE - m * PAGE == size - k * PAGE;
      forall i: nat | i < k ensures Got(size - i * PAGE, Later(delivers, i)) == PAGE {
        if i > 0 {
          LaterMore(delivers, 1, i - 1);
          assert Got(size - PAGE - (i - 1) * PAGE, Later(later, i - 1)) == PAGE;
          assert size - PAGE - (i - 1) * PAGE == size - i * PAGE;
        }
      }
    }
  }

  class Reader {
    var input: seq<Byte>
    var delivers: seq<nat>

    constructor (input: seq<Byte>, delivers: seq<nat>)
      ensures this.input == input && this.delivers == delivers
    {
      this.input, this.delivers := input, delivers;
    }

    method Read(size: nat) returns (buffer: seq<Byte>)
      modifies this
      ensures |buffer| <= size && old(input) == buffer + input
      ensures |buffer| == (var page := if |old(input)| < size then |old(input)| else size;
                           if old(delivers) != [] && old(delivers)[0] < page then old(delivers)[0] else page)
      ensures delivers == if old(delivers) == [] then [] else old(delivers)[1..]
    {
      var n := if |input| < size then |input| else size;
      if delivers != [] {
        if delivers[0] < n {
          n := delivers[0];
        }
        delivers := delivers[1..];
      }
      buffer, input := input[..n], input[n..];
    }

    /** Reads pages until one is not full. */
    method ReadAllBytes() returns (result: seq<Byte>)
      modifies this
      ensures result == old(input)[..Delivered(|old(input)|, old(delivers))]
      ensures result == old(input) <==> FullPages(|old(input)|, old(delivers))
    {
      ghost var all, size := input, |input|;
      CompleteExactly(size, delivers);
      result := [];
      var buffer := Read(PAGE);
      result := result + buffer;
      while |buffer| == PAGE
        invariant all == result + input && |buffer| <= PAGE
        invariant Delivered(size, old(delivers)) ==
                  if |buffer| == PAGE then |result| + Delivered(|input|, delivers) else |result|
        decreases |input|, |buffer| == PAGE
      {
        buffer := Read(PAGE);
        result := result + buffer;
      }
    }

    /** Reads everything as lines. */
    method ReadAllLines() returns (result: seq<Line>)
      modifies this
      ensures result == LinesOf(old(input)[..Delivered(|old(input)|, old(delivers))])
    {
      var temp: Line := [];
      result := [];
      var bytes := ReadAllBytes();
      for i := 0 to |bytes|
        invariant temp == Split(bytes[..i]).1 && result == NonEmpty(Split(bytes[..i]).0)
      {
        assert bytes[..i + 1][..i] == bytes[..i];
        if bytes[i] == CR || bytes[i] == LF {
          NonEmptyAppend(Split(bytes[..i]).0, temp);
          if temp != [] {
            result := result + [temp];
            temp := [];
          }
        } else {
          temp := temp + [bytes[i]];
        }
      }
      assert bytes[..|bytes|] == bytes;
    }
  }

  /** Through a writer that takes everything and a reader that delivers full pages, every list
      of lines comes back without its empty lines, whatever its size. */
  method Transfer(lines: seq<Line>, eol: Line, delivers: seq<nat>) returns (result: seq<Line>)
    requires AllFree(lines) && IsEndLine(eol)
    requires FullPages(|Encode(lines, eol)|, delivers)
    ensures result == NonEmpty(lines)
  {
    var writer := new Writer([]);
    var written;
    ghost var part;
    written, part := writer.WriteLines(lines, eol);
    assert lines[..written] == lines;
    assert writer.output == Encode(lines, eol);
    var reader := new Reader(writer.output, delivers);
    CompleteExactly(|writer.output|, delivers);
    result := reader.ReadAllLines();
    assert writer.output[..|writer.output|] == writer.output;
    DecodeEncode(lines, eol);
  }
}
