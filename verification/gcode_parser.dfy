/** The indexing pass of `GCodeParser`: lines are cut from the block reader,
    G-lines go through the decoder, and every move whose Z differs from the
    last Z seen opens a new layer at the offset where its line starts. */
module GCodeParser {
  import opened Results
  import opened Ascii
  import opened GCommand
  import opened LayerIndex
  import opened BlockReader

  /** The size of the line buffer and the number of loop iterations per line. */
  const LineMax: nat := 128

  const UpperG: Byte := 71
  const LowerG: Byte := 103

  /** The Z value `lastZ` starts from, below any value a token can carry. */
  const NoZ: real := -999.0

  // ---------------------------------------------------------------------------
  // Cutting lines

  /** The line the loop keeps from the bytes it classified: carriage returns
      are dropped and so are spaces while nothing has been kept yet. */
  function Clean(s: seq<Byte>): (r: seq<Byte>)
    ensures |r| <= |s|
  {
    if |s| == 0 then []
    else
      var kept := Clean(s[..|s| - 1]);
      var c := s[|s| - 1];
      if c == CR || (c == SPACE && |kept| == 0) then kept else kept + [c]
  }

  function RemoveCR(s: seq<Byte>): (r: seq<Byte>)
    ensures CR !in r
  {
    if |s| == 0 then [] else (if s[0] == CR then [] else [s[0]]) + RemoveCR(s[1..])
  }

  function DropLeadingSpaces(s: seq<Byte>): (r: seq<Byte>)
    ensures |r| > 0 ==> r[0] != SPACE
  {
    if |s| == 0 || s[0] != SPACE then s else DropLeadingSpaces(s[1..])
  }

  lemma {:induction false} RemoveCRSnoc(s: seq<Byte>, c: Byte)
    ensures RemoveCR(s + [c]) == RemoveCR(s) + (if c == CR then [] else [c])
    decreases |s|
  {
    if |s| == 0 {
      assert s + [c] == [c];
    } else {
      var head := if s[0] == CR then [] else [s[0]];
      var tail := if c == CR then [] else [c];
      assert (s + [c])[1..] == s[1..] + [c];
      RemoveCRSnoc(s[1..], c);
      assert RemoveCR(s + [c]) == head + (RemoveCR(s[1..]) + tail);
      assert head + (RemoveCR(s[1..]) + tail) == (head + RemoveCR(s[1..])) + tail;
    }
  }

  lemma {:induction false} DropSnoc(s: seq<Byte>, c: Byte)
    ensures DropLeadingSpaces(s + [c]) ==
            if c == SPACE && |DropLeadingSpaces(s)| == 0 then [] else DropLeadingSpaces(s) + [c]
    decreases |s|
  {
    if |s| == 0 {
      assert s + [c] == [c];
      if c == SPACE {
        assert [c][1..] == [];
      }
    } else {
      assert (s + [c])[1..] == s[1..] + [c];
      if s[0] == SPACE {
        DropSnoc(s[1..], c);
      }
    }
  }

  /** The kept line is the classified bytes without carriage returns and
      without the spaces that lead it. */
  lemma {:induction false} CleanMeaning(s: seq<Byte>)
    ensures Clean(s) == DropLeadingSpaces(RemoveCR(s))
    decreases |s|
  {
    if |s| > 0 {
      var s' := s[..|s| - 1];
      var c := s[|s| - 1];
      assert s == s' + [c];
      CleanMeaning(s');
      RemoveCRSnoc(s', c);
      assert Clean(s) == if c == CR || (c == SPACE && |Clean(s')| == 0) then Clean(s') else Clean(s') + [c];
      if c != CR {
        DropSnoc(RemoveCR(s'), c);
      } else {
        assert RemoveCR(s) == RemoveCR(s') + [];
        assert RemoveCR(s) == RemoveCR(s');
      }
    }
  }

  /** The first line feed at or after k, or |w|. */
  function FindLF(w: seq<Byte>, k: nat): (r: nat)
    requires k <= |w|
    ensures k <= r <= |w|
    ensures forall j :: k <= j < r ==> w[j] != LF
    ensures r < |w| ==> w[r] == LF
    decreases |w| - k
  {
    if k == |w| || w[k] == LF then k else FindLF(w, k + 1)
  }

  /** What the line loop makes of the bytes from position p. */
  datatype LineResult = Overlong | Scanned(line: seq<Byte>, next: nat)

  /** The line that starts at file position p, stated on the file alone. The
      loop looks at no more than 128 bytes and never classifies the last byte
      of the file, because the fetch that follows it reports the end first.
      `next` is where the following line starts, or |file| at the end. */
  function LineAt(file: seq<Byte>, p: nat): (r: LineResult)
    requires p < |file|
    ensures r.Scanned? ==> p < r.next <= |file| && r.next <= p + LineMax && |r.line| < LineMax
    ensures r.Scanned? ==> CR !in r.line && LF !in r.line
  {
    var end := Min(p + LineMax, |file| - 1);
    var w := file[p..end];
    var k := FindLF(w, 0);
    if k < |w| then
      CleanShorter(w[..k]);
      Scanned(Clean(w[..k]), p + k + 1)
    else if |Clean(w)| == LineMax then Overlong
    else
      CleanShorter(w);
      Scanned(Clean(w), Min(p + LineMax, |file|))
  }

  lemma {:induction false} CleanShorter(s: seq<Byte>)
    ensures |Clean(s)| <= |s| && CR !in Clean(s)
    ensures LF !in s ==> LF !in Clean(s)
    decreases |s|
  {
    if |s| > 0 {
      assert forall j :: 0 <= j < |s| - 1 ==> s[..|s| - 1][j] == s[j];
      CleanShorter(s[..|s| - 1]);
    }
  }

  datatype LineScan = LineScan(reader: Reader, line: seq<Byte>, tooLong: bool)

  /** The loop's outcome agrees with `LineAt`: the same verdict, the same
      line, and a reader left where the next line starts (at the end of the
      file, a reader whose last read returned -1). */
  ghost predicate Matches(s: LineScan, file: seq<Byte>, p: nat)
    requires p < |file|
  {
    && s.reader.file == file
    && match LineAt(file, p)
       case Overlong => s.tooLong && Valid(s.reader)
       case Scanned(line, next) => !s.tooLong && s.line == line && Resumes(s.reader, next)
  }

  /** What the loop has seen after i iterations of a line that started at p. */
  ghost predicate Scanning(r: Reader, p: nat, i: nat, line: seq<Byte>)
  {
    && Valid(r) && r.size > 0
    && i <= LineMax && Pos(r) == p + i
    && (forall j :: p <= j < p + i ==> r.file[j] != LF)
    && line == Clean(r.file[p..p + i]) && |line| < LineMax
  }

  /** The byte loop of `parseLine`, which runs at most 128 iterations, from iteration i, for a
      line that started at position p and has kept `line` so far. */
  function ScanLine(r: Reader, p: nat, i: nat, line: seq<Byte>): (s: LineScan)
    requires Scanning(r, p, i, line)
    ensures Matches(s, r.file, p)
    decreases LineMax - i, 2
  {
    if i == LineMax then
      Stopped(r.file, p, i);
      LineScan(r, line, false)
    else ScanByte(r, p, i, line)
  }

  /** One iteration of the loop: fetch a byte; the loop ends when the
      fetch after it finds the end of the file. */
  function ScanByte(r: Reader, p: nat, i: nat, line: seq<Byte>): (s: LineScan)
    requires Scanning(r, p, i, line) && i < LineMax
    ensures Matches(s, r.file, p)
    decreases LineMax - i, 1
  {
    var f := Next(r);
    if f.eof then
      Stopped(r.file, p, i);
      LineScan(f.reader, line, false)
    else ScanKept(r, f, p, i, line)
  }

  /** The rest of the iteration: a line feed ends the line, a carriage
      return and a leading space are dropped, any other byte is kept. */
  function ScanKept(r: Reader, f: Fetched, p: nat, i: nat, line: seq<Byte>): (s: LineScan)
    requires Scanning(r, p, i, line) && i < LineMax
    requires f == Next(r) && !f.eof
    ensures Matches(s, r.file, p)
    decreases LineMax - i, 0
  {
    if f.byte == LF then
      KeptLF(r, f, p, i, line);
      LineScan(f.reader, line, false)
    else if |Keep(line, f.byte)| == LineMax then
      KeptFull(r, f, p, i, line);
      LineScan(f.reader, Keep(line, f.byte), true)
    else
      KeptMore(r, f, p, i, line);
      ScanLine(f.reader, p, i + 1, Keep(line, f.byte))
  }

  /** The loop body's treatment of one byte c after `kept`. */
  function Keep(kept: seq<Byte>, c: Byte): seq<Byte>
  {
    if c == CR || (c == SPACE && |kept| == 0) then kept else kept + [c]
  }

  lemma KeptLF(r: Reader, f: Fetched, p: nat, i: nat, line: seq<Byte>)
    requires Scanning(r, p, i, line) && i < LineMax
    requires f == Next(r) && !f.eof && f.byte == LF
    ensures Matches(LineScan(f.reader, line, false), r.file, p)
  {
    FoundLF(r.file, p, i);
  }

  lemma KeptFull(r: Reader, f: Fetched, p: nat, i: nat, line: seq<Byte>)
    requires Scanning(r, p, i, line) && i < LineMax
    requires f == Next(r) && !f.eof && f.byte != LF && |Keep(line, f.byte)| == LineMax
    ensures Matches(LineScan(f.reader, Keep(line, f.byte), true), r.file, p)
  {
    CleanStep(r.file, p, i);
    Overflow(r.file, p, i);
  }

  lemma KeptMore(r: Reader, f: Fetched, p: nat, i: nat, line: seq<Byte>)
    requires Scanning(r, p, i, line) && i < LineMax
    requires f == Next(r) && !f.eof && f.byte != LF && |Keep(line, f.byte)| != LineMax
    ensures Scanning(f.reader, p, i + 1, Keep(line, f.byte))
  {
    CleanStep(r.file, p, i);
  }

  /** The 128th kept byte fills the buffer: the line is over-long. */
  lemma Overflow(file: seq<Byte>, p: nat, i: nat)
    requires p + i + 1 < |file| && i < LineMax
    requires forall j :: p <= j < p + i + 1 ==> file[j] != LF
    requires |Clean(file[p..p + i + 1])| == LineMax
    ensures LineAt(file, p) == Overlong
  {
    CleanShorter(file[p..p + i + 1]);
    assert file[p..Min(p + LineMax, |file| - 1)] == file[p..p + i + 1];
    NoLF(file[p..p + i + 1]);
  }

  /** One more classified byte extends the kept line as the loop body does. */
  lemma CleanStep(file: seq<Byte>, p: nat, i: nat)
    requires p + i < |file|
    ensures Clean(file[p..p + i + 1]) == Keep(Clean(file[p..p + i]), file[p + i])
  {
    assert file[p..p + i + 1][..i] == file[p..p + i];
  }

  lemma NoLF(w: seq<Byte>)
    requires LF !in w
    ensures FindLF(w, 0) == |w|
  {
  }

  /** The loop stopped after i bytes without a line feed: the window ends there. */
  lemma Stopped(file: seq<Byte>, p: nat, i: nat)
    requires p + i < |file| && i <= LineMax
    requires i == LineMax || p + i + 1 == |file|
    requires forall j :: p <= j < p + i ==> file[j] != LF
    requires |Clean(file[p..p + i])| < LineMax
    ensures LineAt(file, p) == Scanned(Clean(file[p..p + i]), Min(p + LineMax, |file|))
  {
    assert file[p..Min(p + LineMax, |file| - 1)] == file[p..p + i];
    NoLF(file[p..p + i]);
  }

  /** The loop met a line feed after i bytes: the line is what came before it. */
  lemma FoundLF(file: seq<Byte>, p: nat, i: nat)
    requires p + i + 1 < |file| && i < LineMax
    requires file[p + i] == LF
    requires forall j :: p <= j < p + i ==> file[j] != LF
    ensures LineAt(file, p) == Scanned(Clean(file[p..p + i]), p + i + 1)
  {
    var w := file[p..Min(p + LineMax, |file| - 1)];
    assert w[..i] == file[p..p + i];
    assert FindLF(w, 0) == i;
  }

  // ---------------------------------------------------------------------------
  // Classifying lines

  /** The static state of the parser and of the decoder it drives. */
  datatype Indexer = Indexer(reader: Reader, dec: Decoder, chain: Chain, lastZ: real)

  /** The state after `openFile` on a fresh process. */
  function Start(file: seq<Byte>): (st: Indexer)
    ensures st.reader.file == file && Valid(st.reader) && Pos(st.reader) == 0
    ensures ChainOk(st.chain) && st.chain.current == 0 && |st.chain.entries| == 1
  {
    RootOk();
    Indexer(Open(file), Initial, Root, NoZ)
  }

  predicate IsG(line: seq<Byte>)
  {
    |line| > 0 && (line[0] == UpperG || line[0] == LowerG)
  }

  /** A line the indexer lets through: anything that is not a G-line, or a
      G-line with a supported opcode. */
  predicate Accepted(line: seq<Byte>)
  {
    !IsG(line) || (WellFormed(line) && ValidCode(OpcodeOf(line)))
  }

  /** A G0 or G1 line that states a Z value. */
  predicate IsZMove(line: seq<Byte>)
  {
    IsG(line) && WellFormed(line) && (OpcodeOf(line) == 0 || OpcodeOf(line) == 1) &&
    ArgsSpec(line + [SPACE]).z.Some?
  }

  function ZOf(line: seq<Byte>): (r: real)
    requires IsZMove(line)
    ensures r >= 0.0
  {
    ArgsSpec(line + [SPACE]).z.value
  }

  /** A line that opens a new layer: a Z move to a Z other than the last one. */
  predicate NewLayer(line: seq<Byte>, lastZ: real)
  {
    IsZMove(line) && ZOf(line) != lastZ
  }

  datatype Step = Step(st: Indexer, ok: bool)

  /** The layer bookkeeping after a line that started at `start`: a new
      layer there when the line opens one, nothing otherwise. */
  predicate Layered(st: Indexer, line: seq<Byte>, start: nat, st': Indexer)
    requires st.chain.current < |st.chain.entries|
  {
    if NewLayer(line, st.lastZ) then st'.chain == Append(st.chain, start) && st'.lastZ == ZOf(line)
    else st'.chain == st.chain && st'.lastZ == st.lastZ
  }

  /** The command switch of `parseLine` for a cut line that started at `start`. */
  function Classify(st: Indexer, line: seq<Byte>, start: nat): (r: Step)
    requires |line| < LineMax
    requires st.chain.current < |st.chain.entries|
    ensures r.ok <==> Accepted(line)
    ensures r.st.reader == st.reader
    ensures Layered(st, line, start, r.st)
    ensures !IsG(line) ==> r.st == st
  {
    if !IsG(line) then Step(st, true)
    else
      match SetData(st.dec, line)
      case Err(_) => Step(st.(dec := AfterSetData(st.dec, line)), false)
      case Ok(d) =>
        if !ValidCode(d.code) then Step(st.(dec := d), false)
        else if d.code == 0 || d.code == 1 then
          var d' := d.(args := ParseArguments(d.buf), hasArgs := true);
          ParseArgumentsMeaning(d.buf);
          if d'.args.z.Some? && d'.args.z.value != st.lastZ then
            Step(Indexer(st.reader, d', Append(st.chain, start), d'.args.z.value), true)
          else Step(st.(dec := d'), true)
        else Step(st.(dec := d), true)
  }

  /** The reader is where the line loop leaves it when the next line starts
      at `next`: there, or past the end when `next` is the file size. */
  ghost predicate Resumes(r: Reader, next: nat)
  {
    && Valid(r)
    && (next < |r.file| ==> r.size > 0 && Pos(r) == next)
    && (next == |r.file| ==> r.size == -1)
  }

  /** What `parseLine` does to a state whose reader still has bytes, stated
      through `LineAt` and the line predicates. */
  ghost predicate LineStep(st: Indexer, r: Step)
    requires Valid(st.reader) && st.reader.size > 0 && ChainOk(st.chain)
  {
    var p := Pos(st.reader);
    match LineAt(st.reader.file, p)
    case Overlong => !r.ok && r.st.chain == st.chain && r.st.lastZ == st.lastZ
    case Scanned(line, next) =>
      && (r.ok <==> Accepted(line))
      && Layered(st, line, p, r.st)
      && Resumes(r.st.reader, next)
  }

  /** `parseLine`: nothing once the end was read; otherwise cut a line,
      refuse one that fills the buffer, and classify the rest. */
  function ParseLine(st: Indexer): (r: Step)
    requires Valid(st.reader) && ChainOk(st.chain)
    ensures r.st.reader.file == st.reader.file && ChainOk(r.st.chain)
    ensures st.reader.size == -1 ==> r == Step(st, false)
    ensures st.reader.size > 0 ==> LineStep(st, r)
    ensures r.ok ==> Valid(r.st.reader) && Unread(r.st.reader) < Unread(st.reader)
  {
    if st.reader.size == -1 then Step(st, false)
    else
      var start := Pos(st.reader);
      assert st.reader.file[start..start + 0] == [];
      var s := ScanLine(st.reader, start, 0, []);
      if s.tooLong then Step(st.(reader := s.reader), false)
      else
        var r := Classify(st.(reader := s.reader), s.line, start);
        Step(r.st, r.ok)
  }

  // ---------------------------------------------------------------------------
  // indexFile

  /** A file offset where a line starts that moves in Z. */
  predicate ZMoveAt(file: seq<Byte>, o: nat)
  {
    o < |file| && LineAt(file, o).Scanned? && IsZMove(LineAt(file, o).line)
  }

  /** How far into the file the reader has handed out bytes. */
  function Consumed(r: Reader): (c: nat)
    ensures Valid(r) ==> c <= |r.file|
    ensures Valid(r) && r.size > 0 ==> c < |r.file|
  {
    if r.size > 0 then Pos(r) else |r.file|
  }

  /** The chain `after` keeps every node of `before` in place and adds nodes
      whose offsets rise strictly, are at least `from`, and each start a Z
      move in the file. */
  ghost predicate Grown(before: Chain, after: Chain, file: seq<Byte>, from: nat)
  {
    && |before.entries| <= |after.entries|
    && (forall i :: 0 <= i < |before.entries| ==>
          after.entries[i].index == before.entries[i].index && after.entries[i].offset == before.entries[i].offset)
    && (forall i :: |before.entries| <= i < |after.entries| ==>
          from <= after.entries[i].offset && ZMoveAt(file, after.entries[i].offset))
    && (forall i, j :: |before.entries| <= i < j < |after.entries| ==>
          after.entries[i].offset < after.entries[j].offset)
  }

  /** Growth composes: a step's growth followed by the rest's. */
  lemma GrownTrans(a: Chain, b: Chain, c: Chain, file: seq<Byte>, from: nat, mid: nat)
    requires Grown(a, b, file, from) && Grown(b, c, file, mid)
    requires forall i :: |a.entries| <= i < |b.entries| ==> b.entries[i].offset < mid
    requires from <= mid
    ensures Grown(a, c, file, from)
  {
  }

  /** One line adds at most one node, at the line's own start offset. */
  lemma StepGrows(st: Indexer)
    requires Valid(st.reader) && ChainOk(st.chain)
    ensures var r := ParseLine(st);
            && Grown(st.chain, r.st.chain, st.reader.file, Consumed(st.reader))
            && |r.st.chain.entries| <= |st.chain.entries| + 1
            && (forall i :: |st.chain.entries| <= i < |r.st.chain.entries| ==>
                  r.st.chain.entries[i].offset < Consumed(r.st.reader))
            && (r.ok ==> Consumed(st.reader) < Consumed(r.st.reader))
  {
    var r := ParseLine(st);
    var file := st.reader.file;
    if st.reader.size > 0 {
      var p := Pos(st.reader);
      assert Consumed(st.reader) == p;
      match LineAt(file, p)
      case Overlong =>
        StaysGrown(st.chain, file, p);
      case Scanned(line, next) =>
        ResumesConsumed(r.st.reader, next);
        if NewLayer(line, st.lastZ) {
          assert r.st.chain == Append(st.chain, p);
          assert ZMoveAt(file, p);
          AppendGrows(st.chain, p, file);
        } else {
          StaysGrown(st.chain, file, p);
        }
    } else {
      StaysGrown(st.chain, file, Consumed(st.reader));
    }
  }

  lemma ResumesConsumed(rd: Reader, next: nat)
    requires Resumes(rd, next) && next <= |rd.file|
    ensures Consumed(rd) == next
  {
  }

  lemma StaysGrown(ch: Chain, file: seq<Byte>, from: nat)
    ensures Grown(ch, ch, file, from)
  {
  }

  /** A node appended at a Z move's offset is growth from that offset. */
  lemma AppendGrows(ch: Chain, o: nat, file: seq<Byte>)
    requires ch.current < |ch.entries| && ZMoveAt(file, o)
    ensures Grown(ch, Append(ch, o), file, o)
  {
  }

  // ---------------------------------------------------------------------------
  // The pass as a fold over the lines it reads

  /** A line the pass reads: where it starts and what the loop keeps of it. */
  datatype Slot = Slot(offset: nat, line: seq<Byte>)

  /** The lines the pass accepts from position p on: each line `LineAt` cuts,
      in file order, until the end of the file, an over-long line or a
      refused line, which ends the pass without being listed. */
  function Lines(file: seq<Byte>, p: nat): (r: seq<Slot>)
    requires p <= |file|
    ensures |r| <= |file| - p
    ensures |r| > 0 ==> r[0].offset == p
    ensures forall k :: 0 <= k < |r| ==>
              && p <= r[k].offset < |file| && Accepted(r[k].line)
              && LineAt(file, r[k].offset).Scanned? && LineAt(file, r[k].offset).line == r[k].line
    ensures forall k :: 0 <= k < |r| - 1 ==> r[k + 1].offset == LineAt(file, r[k].offset).next
    decreases |file| - p
  {
    if p == |file| then []
    else
      match LineAt(file, p)
      case Overlong => []
      case Scanned(line, next) =>
        if Accepted(line) then [Slot(p, line)] + Lines(file, next) else []
  }

  /** The layer chain and the last Z seen. */
  datatype Layering = Layering(chain: Chain, lastZ: real)

  /** The layer bookkeeping of `parseLine`, applied to the lines in order: a
      line that opens a layer appends a node at its offset and sets the last Z. */
  function Fold(slots: seq<Slot>, ch: Chain, lastZ: real): (r: Layering)
    requires ch.current < |ch.entries|
    ensures r.chain.current < |r.chain.entries|
    ensures |ch.entries| <= |r.chain.entries| <= |ch.entries| + |slots|
    ensures ChainOk(ch) ==> ChainOk(r.chain)
    decreases |slots|
  {
    if |slots| == 0 then Layering(ch, lastZ)
    else if NewLayer(slots[0].line, lastZ) then
      Fold(slots[1..], Append(ch, slots[0].offset), ZOf(slots[0].line))
    else Fold(slots[1..], ch, lastZ)
  }

  /** One call of `parseLine` is one step of the fold: a refusal or the end
      lists no line and changes nothing; an accepted line is the first one
      listed, and the fold from the resumed position finishes the same way. */
  lemma StepFolds(st: Indexer)
    requires Valid(st.reader) && ChainOk(st.chain)
    ensures var step := ParseLine(st);
            var file := st.reader.file;
            var ls := Lines(file, Consumed(st.reader));
            && (!step.ok ==> |ls| == 0 && step.st.chain == st.chain && step.st.lastZ == st.lastZ)
            && (step.ok ==>
                  && Valid(step.st.reader) && ChainOk(step.st.chain)
                  && var rest := Lines(file, Consumed(step.st.reader));
                     && |ls| == 1 + |rest|
                     && Fold(ls, st.chain, st.lastZ) == Fold(rest, step.st.chain, step.st.lastZ))
  {
    var step := ParseLine(st);
    var file := st.reader.file;
    if st.reader.size > 0 {
      var p := Pos(st.reader);
      assert Consumed(st.reader) == p;
      match LineAt(file, p)
      case Overlong =>
      case Scanned(line, next) =>
        if Accepted(line) {
          ResumesConsumed(step.st.reader, next);
          var ls := Lines(file, p);
          assert ls == [Slot(p, line)] + Lines(file, next);
          assert ls[1..] == Lines(file, next);
        } else {
          RefusedOpensNothing(line, st.lastZ);
        }
    }
  }

  datatype Indexed = Indexed(st: Indexer, lines: nat)

  /** The loop of `indexFile`: call `parseLine` and count the lines while it
      returns true. The chain and the last Z it ends with are the fold over
      the lines it accepts, and the count is the number of those lines. */
  function IndexLoop(st: Indexer, lines: nat): (r: Indexed)
    requires Valid(st.reader) && ChainOk(st.chain)
    ensures r.st.reader.file == st.reader.file && ChainOk(r.st.chain)
    ensures Grown(st.chain, r.st.chain, st.reader.file, Consumed(st.reader))
    ensures var ls := Lines(st.reader.file, Consumed(st.reader));
            && Layering(r.st.chain, r.st.lastZ) == Fold(ls, st.chain, st.lastZ)
            && r.lines == lines + |ls|
    ensures r.lines <= lines + Unread(st.reader)
    decreases Unread(st.reader)
  {
    var step := ParseLine(st);
    StepGrows(st);
    StepFolds(st);
    if !step.ok then Indexed(step.st, lines)
    else
      var rest := IndexLoop(step.st, lines + 1);
      GrownTrans(st.chain, step.st.chain, rest.st.chain, st.reader.file,
                 Consumed(st.reader), Consumed(step.st.reader));
      rest
  }

  datatype IndexReport = IndexReport(st: Indexer, lines: nat, log: seq<LogLine>)

  /** `indexFile`: parse lines until one is refused or the file ends, then
      walk the chain from the root and log every layer but the current one.
      Neither the chain nor `lastZ` is reset first. */
  function IndexFile(st: Indexer): (r: IndexReport)
    requires Valid(st.reader) && ChainOk(st.chain)
    ensures ChainOk(r.st.chain)
    ensures Grown(st.chain, r.st.chain, st.reader.file, Consumed(st.reader))
    ensures var ls := Lines(st.reader.file, Consumed(st.reader));
            && Layering(r.st.chain, r.st.lastZ) == Fold(ls, st.chain, st.lastZ)
            && r.lines == |ls|
    ensures r.lines <= Unread(st.reader)
    ensures |r.log| == r.st.chain.current
    ensures forall k :: 0 <= k < |r.log| ==> r.log[k] == LogLine(k, r.st.chain.entries[k].offset)
  {
    var x := IndexLoop(st, 0);
    LoggedFromRoot(x.st.chain);
    IndexReport(x.st, x.lines, Logged(x.st.chain, 0))
  }

  // ---------------------------------------------------------------------------
  // Properties of the pass

  /** A token value is never negative, so on a fresh start the first Z move
      always opens layer 1. */
  lemma FirstZMoveOpensLayer(line: seq<Byte>)
    requires IsZMove(line)
    ensures NewLayer(line, NoZ)
  {
    var s := line + [SPACE];
    var j := LastStart(s, Z, |s|).value;
    var e := RunEnd(s, j + 1);
    if e != j + 1 {
      assert Command.ParseFloat(s, j + 1, e) >= 0.0;
    }
  }

  /** Two Z moves in a row to the same Z open at most one layer: after
      `parseLine` accepts the first, parsing the second leaves the chain and
      the last Z as they are. */
  lemma SameZNoNewLayer(st: Indexer, line1: seq<Byte>, line2: seq<Byte>)
    requires Valid(st.reader) && ChainOk(st.chain) && st.reader.size > 0
    requires LineAt(st.reader.file, Pos(st.reader)).Scanned?
    requires LineAt(st.reader.file, Pos(st.reader)).line == line1 && IsZMove(line1)
    requires ParseLine(st).st.reader.size > 0
    requires LineAt(st.reader.file, Pos(ParseLine(st).st.reader)).Scanned?
    requires LineAt(st.reader.file, Pos(ParseLine(st).st.reader)).line == line2
    requires IsZMove(line2) && ZOf(line2) == ZOf(line1)
    ensures ParseLine(st).ok && ParseLine(ParseLine(st).st).ok
    ensures ParseLine(ParseLine(st).st).st.chain == ParseLine(st).st.chain
    ensures ParseLine(ParseLine(st).st).st.lastZ == ParseLine(st).st.lastZ
  {
  }

  /** A refused line never opens a layer. */
  lemma RefusedOpensNothing(line: seq<Byte>, lastZ: real)
    requires !Accepted(line)
    ensures !NewLayer(line, lastZ)
  {
  }

  /** A file with no line feed that fits in one line is one line, without
      its last byte: the fetch after that byte reports the end first. */
  lemma LastByteDropped(file: seq<Byte>)
    requires 0 < |file| <= LineMax && LF !in file
    ensures LineAt(file, 0) == Scanned(Clean(file[..|file| - 1]), |file|)
  {
    NoLF(file[0..|file| - 1]);
    CleanShorter(file[..|file| - 1]);
    assert file[0..|file| - 1] == file[..|file| - 1];
  }

  /** 128 bytes without a line feed and with room left in the buffer end the
      line anyway; the next line starts right after them. */
  lemma LineCutAtWindow(file: seq<Byte>, p: nat)
    requires p + LineMax < |file|
    requires LF !in file[p..p + LineMax]
    requires |Clean(file[p..p + LineMax])| < LineMax
    ensures LineAt(file, p) == Scanned(Clean(file[p..p + LineMax]), p + LineMax)
  {
    NoLF(file[p..p + LineMax]);
  }

  /** The first line of a fresh pass over a non-empty file starts at offset 0,
      and a Z move there opens layer 1 at offset 0. */
  lemma FreshPassFirstLine(file: seq<Byte>)
    requires 0 < |file|
    ensures var st := Start(file);
            var r := ParseLine(st);
            ZMoveAt(file, 0) ==>
              && r.st.chain == Append(Root, 0)
              && r.st.chain.entries[1] == LayerEntry(1, 0, None, Some(0))
  {
    var st := Start(file);
    if ZMoveAt(file, 0) {
      FirstZMoveOpensLayer(LineAt(file, 0).line);
    }
  }
}
