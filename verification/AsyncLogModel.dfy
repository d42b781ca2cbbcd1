/**
 * The exchange of buffers between logging threads and the writer thread of base/async_logging.cpp,
 * as a state machine. Each event is one critical section, or one step of the writer outside it.
 */
module AsyncLogModel {
  import opened LogBuffer

  /** What `LogFile` receives: the notice with the number of dropped buffers, or the contents of one buffer. */
  datatype Chunk = Notice(dropped: nat) | Text(text: string)

  /** Where the writer is: at the loop head, in the timed wait, with a batch just taken, or writing it out. */
  datatype Phase =
    | Top
    | Waiting
    | Swapped(batch: seq<string>)
    | Writing(batch: seq<string>, done: nat)
    | Stopped

  /**
   * The spare buffers are empty, so that only their presence counts. `lines` and `batches` are the history:
   * every line appended, every batch taken.
   */
  datatype State = State(running: bool, current: string, next: bool, buffers: seq<string>,
                         phase: Phase, spare1: bool, spare2: bool, output: seq<Chunk>,
                         lines: seq<string>, batches: seq<seq<string>>)

  /** `Wake` is the end of the timed wait, by time, notification or spuriously. */
  datatype Event = Append(line: string) | Enter | Wake | Trim | Write | Recycle | Stop

  const INIT := State(true, "", true, [], Top, true, true, [], [], [])

  /** A buffer keeps at most its size of a line. */
  function Recorded(line: string): string {
    if |line| > LARGE_BUFFER then line[..LARGE_BUFFER] else line
  }

  function AppendLine(s: State, line: string): State {
    if LARGE_BUFFER - |s.current| > |line| then
      s.(current := s.current + line, lines := s.lines + [line])
    else
      s.(buffers := s.buffers + [s.current], next := false, current := Recorded(line), lines := s.lines + [line])
  }

  function Swap(s: State): State {
    var batch := s.buffers + [s.current];
    s.(buffers := [], current := "", spare1 := false, next := true, spare2 := s.spare2 && s.next,
       phase := Swapped(batch), batches := s.batches + [batch])
  }

  /** One step of the thread the event belongs to; an event that thread is not at leaves the state alone. */
  function Step(s: State, e: Event): State {
    match e
    case Append(line) => AppendLine(s, line)
    case Enter =>
      if !s.phase.Top? then s
      else if !s.running then s.(phase := Stopped)
      else if s.buffers == [] then s.(phase := Waiting)
      else Swap(s)
    case Wake => if s.phase.Waiting? then Swap(s) else s
    case Trim =>
      if !s.phase.Swapped? then s
      else if |s.phase.batch| > 25 then
        s.(output := s.output + [Notice(|s.phase.batch| - 2)], phase := Writing(s.phase.batch[..2], 0))
      else s.(phase := Writing(s.phase.batch, 0))
    case Write =>
      if s.phase.Writing? && s.phase.done < |s.phase.batch| then
        s.(output := s.output + [Text(s.phase.batch[s.phase.done])],
           phase := Writing(s.phase.batch, s.phase.done + 1))
      else s
    case Recycle =>
      if s.phase.Writing? && s.phase.done == |s.phase.batch| then s.(phase := Top, spare1 := true, spare2 := true)
      else s
    case Stop => s.(running := false)
  }

  /** Every list of events is a schedule of the producers and the writer. */
  function Run(es: seq<Event>): State {
    if es == [] then INIT else Step(Run(es[..|es| - 1]), es[|es| - 1])
  }

  function LinesOf(es: seq<Event>): seq<string> {
    if es == [] then []
    else
      var e := es[|es| - 1];
      LinesOf(es[..|es| - 1]) + (if e.Append? then [e.line] else [])
  }

  function Flatten(xs: seq<string>): string {
    if xs == [] then "" else Flatten(xs[..|xs| - 1]) + xs[|xs| - 1]
  }

  function FlattenAll(bs: seq<seq<string>>): string {
    if bs == [] then "" else FlattenAll(bs[..|bs| - 1]) + Flatten(bs[|bs| - 1])
  }

  function RecordedAll(lines: seq<string>): string {
    if lines == [] then "" else RecordedAll(lines[..|lines| - 1]) + Recorded(lines[|lines| - 1])
  }

  function Texts(xs: seq<string>): seq<Chunk> {
    seq(|xs|, i requires 0 <= i < |xs| => Text(xs[i]))
  }

  /** What a batch contributes to the file. */
  function Rendering(batch: seq<string>): seq<Chunk> {
    if |batch| > 25 then [Notice(|batch| - 2), Text(batch[0]), Text(batch[1])] else Texts(batch)
  }

  function RenderAll(bs: seq<seq<string>>): seq<Chunk> {
    if bs == [] then [] else RenderAll(bs[..|bs| - 1]) + Rendering(bs[|bs| - 1])
  }

  /** The part of the batch in hand that the file still lacks. */
  function Unwritten(p: Phase): seq<Chunk>
    requires p.Writing? ==> p.done <= |p.batch|
  {
    match p
    case Swapped(batch) => Rendering(batch)
    case Writing(batch, done) => Texts(batch[done..])
    case _ => []
  }

  /** The characters of the file without the notices. */
  function CharsOf(cs: seq<Chunk>): string {
    if cs == [] then ""
    else
      var c := cs[|cs| - 1];
      CharsOf(cs[..|cs| - 1]) + (if c.Text? then c.text else "")
  }

  // ---------------------------------------------------------------- invariants

  /** `nextBuffer_` is missing only while `buffers_` holds a buffer: what the writer's asserts rely on. */
  ghost predicate Balanced(s: State) {
    && (!s.next ==> s.buffers != [])
    && |s.current| <= LARGE_BUFFER
    && match s.phase
       case Top => s.spare1 && s.spare2
       case Waiting => s.spare1 && s.spare2
       case Stopped => s.spare1 && s.spare2
       case Swapped(batch) => !s.spare1 && batch != [] && (s.spare2 || |batch| >= 2)
       case Writing(batch, done) => !s.spare1 && 0 < |batch| <= 25 && done <= |batch| && (s.spare2 || |batch| >= 2)
  }

  /** The six asserts inside the writer loop, each at the phase where it is evaluated. */
  ghost predicate AssertsHold(s: State) {
    match s.phase
    case Top => s.spare1 && s.spare2
    case Swapped(batch) => |batch| > 0
    case Writing(batch, done) =>
      var kept := if |batch| > 2 then 2 else |batch|;
      && (!s.spare1 ==> kept > 0)
      && (!s.spare2 ==> kept - (if s.spare1 then 0 else 1) > 0)
    case _ => true
  }

  ghost predicate Conserved(s: State) {
    && FlattenAll(s.batches) + Flatten(s.buffers) + s.current == RecordedAll(s.lines)
    && (s.phase.Writing? ==> s.phase.done <= |s.phase.batch|)
    && s.output + Unwritten(s.phase) == RenderAll(s.batches)
  }

  lemma StartIsBalanced()
    ensures Balanced(INIT)
  {
  }

  /** Whatever the next step is, and whoever takes it, the balance is kept. */
  lemma StepIsBalanced(s: State, e: Event)
    ensures Balanced(s) ==> Balanced(Step(s, e))
  {
  }

  lemma {:induction false} RunIsBalanced(es: seq<Event>)
    ensures Balanced(Run(es))
  {
    hide Step, Balanced;
    if es == [] {
      StartIsBalanced();
    } else {
      RunIsBalanced(es[..|es| - 1]);
      StepIsBalanced(Run(es[..|es| - 1]), es[|es| - 1]);
    }
  }

  /** In every interleaving all six asserts of the writer hold. */
  lemma AssertsAlwaysHold(es: seq<Event>)
    ensures AssertsHold(Run(es))
  {
    RunIsBalanced(es);
  }

  lemma FlattenPush(xs: seq<string>, x: string)
    ensures Flatten(xs + [x]) == Flatten(xs) + x
  {
    assert (xs + [x])[..|xs + [x]| - 1] == xs;
  }

  lemma RecordedPush(lines: seq<string>, line: string)
    ensures RecordedAll(lines + [line]) == RecordedAll(lines) + Recorded(line)
  {
    assert (lines + [line])[..|lines + [line]| - 1] == lines;
  }

  lemma BatchPush(bs: seq<seq<string>>, b: seq<string>)
    ensures FlattenAll(bs + [b]) == FlattenAll(bs) + Flatten(b)
    ensures RenderAll(bs + [b]) == RenderAll(bs) + Rendering(b)
  {
    assert (bs + [b])[..|bs + [b]| - 1] == bs;
  }

  lemma AppendConserves(s: State, line: string)
    requires Conserved(s) && |s.current| <= LARGE_BUFFER
    ensures Conserved(AppendLine(s, line))
  {
    hide Flatten, FlattenAll, RecordedAll, RenderAll, Rendering;
    RecordedPush(s.lines, line);
    if LARGE_BUFFER - |s.current| > |line| {
      assert FlattenAll(s.batches) + Flatten(s.buffers) + (s.current + line)
             == (FlattenAll(s.batches) + Flatten(s.buffers) + s.current) + line;
    } else {
      FlattenPush(s.buffers, s.current);
      assert FlattenAll(s.batches) + (Flatten(s.buffers) + s.current) + Recorded(line)
             == (FlattenAll(s.batches) + Flatten(s.buffers) + s.current) + Recorded(line);
    }
  }

  lemma SwapConserves(s: State)
    requires Conserved(s) && (s.phase.Top? || s.phase.Waiting?)
    ensures Conserved(Swap(s))
  {
    hide FlattenAll, RecordedAll, RenderAll, Rendering;
    var batch := s.buffers + [s.current];
    BatchPush(s.batches, batch);
    FlattenPush(s.buffers, s.current);
    assert FlattenAll(s.batches) + (Flatten(s.buffers) + s.current) + "" + ""
           == FlattenAll(s.batches) + Flatten(s.buffers) + s.current;
    assert s.output + [] == s.output;
  }

  lemma TrimConserves(s: State)
    requires Conserved(s) && s.phase.Swapped?
    ensures Conserved(Step(s, Trim))
  {
    hide Flatten, FlattenAll, RecordedAll, RenderAll;
    var batch := s.phase.batch;
    if |batch| > 25 {
      assert Texts(batch[..2][0..]) == [Text(batch[0]), Text(batch[1])];
      assert s.output + Rendering(batch) == (s.output + [Notice(|batch| - 2)]) + Texts(batch[..2][0..]);
    } else {
      assert batch[0..] == batch;
    }
  }

  lemma WriteConserves(s: State)
    requires Conserved(s) && s.phase.Writing? && s.phase.done < |s.phase.batch|
    ensures Conserved(Step(s, Write))
  {
    hide Flatten, FlattenAll, RecordedAll, RenderAll, Rendering;
    var batch, done := s.phase.batch, s.phase.done;
    assert Texts(batch[done..]) == [Text(batch[done])] + Texts(batch[done + 1..]);
    assert s.output + ([Text(batch[done])] + Texts(batch[done + 1..]))
           == (s.output + [Text(batch[done])]) + Texts(batch[done + 1..]);
  }

  lemma StepConserves(s: State, e: Event)
    requires Conserved(s) && Balanced(s)
    ensures Conserved(Step(s, e)) && Step(s, e).lines == s.lines + (if e.Append? then [e.line] else [])
  {
    hide Flatten, FlattenAll, RecordedAll, RenderAll, Rendering;
    match e
    case Append(line) => AppendConserves(s, line);
    case Enter => if s.phase.Top? && s.running && s.buffers != [] { SwapConserves(s); }
    case Wake => if s.phase.Waiting? { SwapConserves(s); }
    case Trim => if s.phase.Swapped? { TrimConserves(s); }
    case Write => if s.phase.Writing? && s.phase.done < |s.phase.batch| { WriteConserves(s); }
    case _ =>
  }

  /**
   * In every interleaving: the batches taken, then `buffers_`, then `currentBuffer_` are all lines in order,
   * and the file plus the batch in hand is the rendering of the batches in order.
   */
  lemma {:induction false} RunConserves(es: seq<Event>)
    ensures Run(es).lines == LinesOf(es) && Conserved(Run(es))
  {
    if es != [] {
      hide Step, Conserved, Balanced;
      var before := es[..|es| - 1];
      RunConserves(before);
      RunIsBalanced(before);
      StepConserves(Run(before), es[|es| - 1]);
    }
  }

  // ---------------------------------------------------- what reaches the file

  lemma {:induction false} CharsOfAppend(a: seq<Chunk>, b: seq<Chunk>)
    ensures CharsOf(a + b) == CharsOf(a) + CharsOf(b)
  {
    if b == [] {
      assert a + b == a;
    } else {
      assert (a + b)[..|a + b| - 1] == a + b[..|b| - 1];
      CharsOfAppend(a, b[..|b| - 1]);
    }
  }

  lemma {:induction false} CharsOfTexts(xs: seq<string>)
    ensures CharsOf(Texts(xs)) == Flatten(xs)
  {
    if xs != [] {
      var front := xs[..|xs| - 1];
      CharsOfTexts(front);
      assert Texts(xs)[..|xs| - 1] == Texts(front);
    }
  }

  ghost predicate NoOverflow(bs: seq<seq<string>>) {
    forall b :: b in bs ==> |b| <= 25
  }

  lemma {:induction false} RenderedWithoutOverflow(bs: seq<seq<string>>)
    requires NoOverflow(bs)
    ensures CharsOf(RenderAll(bs)) == FlattenAll(bs)
  {
    if bs != [] {
      var front, b := bs[..|bs| - 1], bs[|bs| - 1];
      RenderedWithoutOverflow(front);
      CharsOfAppend(RenderAll(front), Rendering(b));
      CharsOfTexts(b);
    }
  }

  /** If no batch overflowed, then file, batch in hand, full buffers and current buffer are all lines in order. */
  lemma NothingLost(es: seq<Event>)
    requires NoOverflow(Run(es).batches)
    ensures Balanced(Run(es))
    ensures var s := Run(es);
            CharsOf(s.output) + CharsOf(Unwritten(s.phase)) + Flatten(s.buffers) + s.current == RecordedAll(LinesOf(es))
  {
    var s := Run(es);
    RunIsBalanced(es);
    RunConserves(es);
    CharsOfAppend(s.output, Unwritten(s.phase));
    RenderedWithoutOverflow(s.batches);
  }

  /** Only lines longer than a buffer are cut. */
  lemma {:induction false} RecordedInFull(lines: seq<string>)
    ensures RecordedAll(lines) == Flatten(lines) <==> forall l :: l in lines ==> |l| <= LARGE_BUFFER
    ensures |RecordedAll(lines)| <= |Flatten(lines)|
  {
    if lines != [] {
      var front, last := lines[..|lines| - 1], lines[|lines| - 1];
      RecordedInFull(front);
      assert lines == front + [last];
      if RecordedAll(lines) == Flatten(lines) && |last| <= LARGE_BUFFER {
        assert RecordedAll(front) == RecordedAll(lines)[..|RecordedAll(front)|];
        assert Flatten(front) == Flatten(lines)[..|Flatten(front)|];
      }
    }
  }

  // --------------------------------------------------- the price of an overflow

  /** A buffer is closed only when the next line no longer fits: neighbours hold together what one could. */
  ghost predicate Tight(xs: seq<string>) {
    forall i :: 0 <= i < |xs| - 1 ==> |xs[i]| + |xs[i + 1]| >= LARGE_BUFFER
  }

  lemma TightPush(xs: seq<string>, x: string, y: string)
    requires Tight(xs + [x]) && |x| + |y| >= LARGE_BUFFER
    ensures Tight(xs + [x] + [y])
  {
    var was, now := xs + [x], xs + [x] + [y];
    assert forall i :: 0 <= i < |was| ==> now[i] == was[i];
  }

  lemma TightGrow(xs: seq<string>, x: string, y: string)
    requires Tight(xs + [x]) && |x| <= |y|
    ensures Tight(xs + [y])
  {
    var was, now := xs + [x], xs + [y];
    assert forall i :: 0 <= i < |xs| ==> now[i] == was[i];
  }

  ghost predicate AllTight(s: State) {
    Tight(s.buffers + [s.current]) && forall b :: b in s.batches ==> Tight(b)
  }

  lemma EmptyIsTight()
    ensures Tight([] + [""])
  {
  }

  lemma StepIsTight(s: State, e: Event)
    requires AllTight(s) && |s.current| <= LARGE_BUFFER
    ensures AllTight(Step(s, e))
  {
    hide Tight;
    EmptyIsTight();
    if e.Append? {
      if LARGE_BUFFER - |s.current| > |e.line| {
        TightGrow(s.buffers, s.current, s.current + e.line);
      } else {
        TightPush(s.buffers, s.current, Recorded(e.line));
      }
    }
  }

  /** Over every run, in `buffers_` with `currentBuffer_` and in every batch, buffers are closed only when full. */
  lemma {:induction false} RunIsTight(es: seq<Event>)
    ensures AllTight(Run(es))
  {
    EmptyIsTight();
    if es != [] {
      RunIsTight(es[..|es| - 1]);
      RunIsBalanced(es[..|es| - 1]);
      StepIsTight(Run(es[..|es| - 1]), es[|es| - 1]);
    }
  }

  lemma {:induction false} FlattenSplit(a: seq<string>, b: seq<string>)
    ensures Flatten(a + b) == Flatten(a) + Flatten(b)
  {
    if b == [] {
      assert a + b == a;
    } else {
      var front, last := b[..|b| - 1], b[|b| - 1];
      assert b == front + [last] && a + b == (a + front) + [last];
      hide Flatten;
      FlattenPush(a + front, last);
      FlattenPush(front, last);
      FlattenSplit(a, front);
      assert Flatten(a) + (Flatten(front) + last) == (Flatten(a) + Flatten(front)) + last;
    }
  }

  lemma PairText(x: string, y: string)
    ensures Flatten([x, y]) == x + y
  {
    FlattenPush([x], y);
    FlattenPush([], x);
    assert [] + [x] == [x] && [x] + [y] == [x, y];
  }

  /** Every two buffers of a batch hold what one could. */
  lemma {:induction false} TightHolds(xs: seq<string>)
    requires Tight(xs)
    ensures |Flatten(xs)| >= |xs| / 2 * LARGE_BUFFER
  {
    hide Flatten;
    if |xs| >= 2 {
      var front := xs[..|xs| - 2];
      var x, y := xs[|xs| - 2], xs[|xs| - 1];
      assert xs == front + [x, y];
      FlattenSplit(front, [x, y]);
      PairText(x, y);
      TightHolds(front);
    }
  }

  /** A batch that overflows loses the text of at least 24 buffers, which is that of 12 full ones. */
  lemma OverflowLosesText(b: seq<string>)
    requires |b| > 25 && Tight(b)
    ensures |CharsOf(Rendering(b))| + 12 * LARGE_BUFFER <= |Flatten(b)|
  {
    hide Flatten, CharsOf;
    var kept, dropped, notice := b[..2], b[2..], [Notice(|b| - 2)];
    assert b == kept + dropped;
    FlattenSplit(kept, dropped);
    TightHolds(dropped);
    assert Rendering(b) == notice + Texts(kept);
    CharsOfAppend(notice, Texts(kept));
    NoticeIsNotText(|b| - 2);
    CharsOfTexts(kept);
  }

  lemma NoticeIsNotText(n: nat)
    ensures CharsOf([Notice(n)]) == ""
  {
    assert [Notice(n)][..0] == [];
  }

  lemma BatchLength(b: seq<string>)
    requires Tight(b)
    ensures |CharsOf(Rendering(b))| <= |Flatten(b)|
    ensures |CharsOf(Rendering(b))| == |Flatten(b)| ==> |b| <= 25
  {
    hide Flatten, CharsOf, Tight;
    if |b| > 25 {
      OverflowLosesText(b);
    } else {
      CharsOfTexts(b);
    }
  }

  lemma {:induction false} RenderedLength(bs: seq<seq<string>>)
    requires forall b :: b in bs ==> Tight(b)
    ensures |CharsOf(RenderAll(bs))| <= |FlattenAll(bs)|
    ensures |CharsOf(RenderAll(bs))| == |FlattenAll(bs)| ==> NoOverflow(bs)
  {
    if bs != [] {
      hide Flatten, CharsOf, Tight, RenderAll, FlattenAll, Rendering;
      var front, b := bs[..|bs| - 1], bs[|bs| - 1];
      assert bs == front + [b];
      RenderedLength(front);
      BatchPush(front, b);
      CharsOfAppend(RenderAll(front), Rendering(b));
      BatchLength(b);
    }
  }

  /** Between batches the log is complete exactly when no batch had more than 25 buffers. */
  lemma CompleteExactly(es: seq<Event>)
    requires var p := Run(es).phase; p.Top? || p.Waiting? || p.Stopped?
    ensures var s := Run(es);
            CharsOf(s.output) + Flatten(s.buffers) + s.current == RecordedAll(LinesOf(es)) <==> NoOverflow(s.batches)
  {
    var s := Run(es);
    RunConserves(es);
    RunIsTight(es);
    assert s.output + [] == s.output;
    RenderedLength(s.batches);
    if NoOverflow(s.batches) {
      RenderedWithoutOverflow(s.batches);
    }
  }

  /** Between batches everything that was appended is there exactly if no batch overflowed and no line was cut. */
  lemma EverythingThereExactly(es: seq<Event>)
    requires var p := Run(es).phase; p.Top? || p.Waiting? || p.Stopped?
    ensures var s := Run(es);
            CharsOf(s.output) + Flatten(s.buffers) + s.current == Flatten(LinesOf(es))
            <==> NoOverflow(s.batches) && forall l :: l in LinesOf(es) ==> |l| <= LARGE_BUFFER
  {
    var s := Run(es);
    CompleteExactly(es);
    RecordedInFull(LinesOf(es));
    RunConserves(es);
    RunIsTight(es);
    assert s.output + [] == s.output;
    RenderedLength(s.batches);
  }

  function Appends(n: nat, line: string): seq<Event> {
    if n == 0 then [] else Appends(n - 1, line) + [Append(line)]
  }

  lemma {:induction false} Fills(n: nat, line: string)
    requires |line| == LARGE_BUFFER
    ensures var s := Run(Appends(n, line));
            |s.buffers| == n && s.phase.Top? && s.running && s.batches == []
    ensures LinesOf(Appends(n, line)) == seq(n, _ => line)
  {
    if n > 0 {
      Fills(n - 1, line);
      RunPush(Appends(n - 1, line), Append(line));
    }
  }

  lemma RunPush(es: seq<Event>, e: Event)
    ensures Run(es + [e]) == Step(Run(es), e)
    ensures LinesOf(es + [e]) == LinesOf(es) + (if e.Append? then [e.line] else [])
  {
    assert (es + [e])[..|es + [e]| - 1] == es;
  }

  /** A writer that first runs after 25 full lines keeps a batch of 26 buffers waiting, of which it drops 24. */
  lemma TooLate(line: string)
    requires |line| == LARGE_BUFFER
    ensures var es := Appends(25, line) + [Enter] + [Trim] + [Write] + [Write] + [Recycle];
            var s := Run(es);
            && s.phase.Top? && !NoOverflow(s.batches)
            && CharsOf(s.output) + Flatten(s.buffers) + s.current != Flatten(LinesOf(es))
  {
    hide Run, LinesOf, Flatten, CharsOf;
    var es := Appends(25, line);
    Fills(25, line);
    RunPush(es, Enter);
    RunPush(es + [Enter], Trim);
    RunPush(es + [Enter] + [Trim], Write);
    RunPush(es + [Enter] + [Trim] + [Write], Write);
    RunPush(es + [Enter] + [Trim] + [Write] + [Write], Recycle);
    EverythingThereExactly(es + [Enter] + [Trim] + [Write] + [Write] + [Recycle]);
  }

  lemma {:induction false} BatchWithin(bs: seq<seq<string>>, b: seq<string>)
    requires b in bs
    ensures |Flatten(b)| <= |FlattenAll(bs)|
  {
    var front, last := bs[..|bs| - 1], bs[|bs| - 1];
    assert bs == front + [last];
    if b != last {
      BatchWithin(front, b);
    }
  }

  /** A batch overflows only with the text of 13 full buffers in it; a log that has seen less is complete. */
  lemma OverflowTakesText(es: seq<Event>)
    ensures forall b :: b in Run(es).batches && |b| > 25 ==> |Flatten(b)| >= 13 * LARGE_BUFFER
    ensures |RecordedAll(LinesOf(es))| < 13 * LARGE_BUFFER ==> NoOverflow(Run(es).batches)
  {
    hide Run, Flatten, FlattenAll, RecordedAll, Tight, Rendering, RenderAll;
    var s := Run(es);
    RunIsTight(es);
    RunConserves(es);
    forall b | b in s.batches && |b| > 25
      ensures 13 * LARGE_BUFFER <= |Flatten(b)| <= |RecordedAll(LinesOf(es))|
    {
      ManyHoldMuch(b);
      BatchWithin(s.batches, b);
    }
  }

  lemma ManyHoldMuch(b: seq<string>)
    requires Tight(b) && |b| > 25
    ensures |Flatten(b)| >= 13 * LARGE_BUFFER
  {
    hide Flatten;
    TightHolds(b);
  }

  /** No buffer of the list is full to the last character. */
  ghost predicate Roomy(xs: seq<string>) {
    forall x :: x in xs ==> |x| < LARGE_BUFFER
  }

  ghost predicate AllRoomy(s: State) {
    |s.current| < LARGE_BUFFER && Roomy(s.buffers) && forall b :: b in s.batches ==> Roomy(b)
  }

  /** A line goes into a buffer only if one character more would: lines shorter than a buffer never fill one. */
  lemma {:induction false} ShortLinesLeaveRoom(es: seq<Event>)
    requires forall l :: l in LinesOf(es) ==> |l| < LARGE_BUFFER
    ensures AllRoomy(Run(es))
  {
    if es != [] {
      var front, e := es[..|es| - 1], es[|es| - 1];
      if e.Append? {
        assert e.line in LinesOf(es);
      }
      assert forall l :: l in LinesOf(front) ==> l in LinesOf(es);
      ShortLinesLeaveRoom(front);
      StepLeavesRoom(Run(front), e);
    }
  }

  lemma StepLeavesRoom(s: State, e: Event)
    requires AllRoomy(s) && (e.Append? ==> |e.line| < LARGE_BUFFER)
    ensures AllRoomy(Step(s, e))
  {
  }

  // --------------------------------------------------------- how the writer ends

  /** At its loop head the writer ends if told to, waits if no buffer is full, and otherwise takes what there is. */
  lemma EnterDecides(s: State)
    requires s.phase.Top?
    ensures var t := Step(s, Enter);
            && (t.phase.Stopped? <==> !s.running)
            && (t.phase.Waiting? <==> s.running && s.buffers == [])
            && (t.batches != s.batches <==> s.running && s.buffers != [])
            && t.lines == s.lines && t.output == s.output
  {
    assert s.batches + [s.buffers + [s.current]] != s.batches;
  }

  /** The writer is told to stop by `stop`, once and for all, and by nothing else. */
  lemma {:induction false} RunningUntilStopped(es: seq<Event>)
    ensures Run(es).running <==> Stop !in es
  {
    if es != [] {
      hide Step;
      var front, e := es[..|es| - 1], es[|es| - 1];
      RunningUntilStopped(front);
      assert es == front + [e];
      StepKeepsRunning(Run(front), e);
    }
  }

  lemma StepKeepsRunning(s: State, e: Event)
    ensures Step(s, e).running == (s.running && !e.Stop?)
  {
  }

  /** A wait ends with a batch of all there is, even if nothing was logged or `stop` came meanwhile. */
  lemma WakeTakesAll(s: State)
    requires s.phase.Waiting?
    ensures var t := Step(s, Wake);
            && t.batches == s.batches + [s.buffers + [s.current]] && t.phase == Swapped(s.buffers + [s.current])
            && t.buffers == [] && t.current == "" && t.output == s.output && t.running == s.running
  {
  }

  /** Steps the writer still takes once it has been told to stop. */
  function Left(p: Phase): nat
    requires p.Writing? ==> p.done <= |p.batch| <= 25
  {
    match p
    case Stopped => 0
    case Top => 1
    case Writing(batch, done) => 2 + |batch| - done
    case Swapped(_) => 28
    case Waiting => 29
  }

  /** The step the writer is at. */
  function Turn(p: Phase): Event
    requires !p.Stopped?
  {
    match p
    case Top => Enter
    case Waiting => Wake
    case Swapped(_) => Trim
    case Writing(batch, done) => if done < |batch| then Write else Recycle
  }

  /** After `stop` each step of the writer brings its end nearer, and no step of anyone else puts it off. */
  lemma StopIsNear(s: State, e: Event)
    requires Balanced(s) && !s.running
    ensures !Step(s, e).running && Balanced(Step(s, e)) && Left(Step(s, e).phase) <= Left(s.phase)
    ensures !s.phase.Stopped? && e == Turn(s.phase) ==> Left(Step(s, e).phase) < Left(s.phase)
  {
  }

  lemma LeftIsSmall(s: State)
    requires Balanced(s)
    ensures Left(s.phase) <= 29
  {
  }

  /** The steps that the writer really takes while `es` goes on with `fs`. */
  ghost function WriterSteps(es: seq<Event>, fs: seq<Event>): nat {
    if fs == [] then 0
    else
      var front, e := fs[..|fs| - 1], fs[|fs| - 1];
      var p := Run(es + front).phase;
      WriterSteps(es, front) + (if !p.Stopped? && e == Turn(p) then 1 else 0)
  }

  /**
   * From `stop` on, however producers go on, the writer takes at most 29 more steps, after which it has ended, and at
   * most one more batch, which it takes only if it was waiting.
   */
  lemma {:induction false} WriterEnds(es: seq<Event>, fs: seq<Event>)
    requires !Run(es).running
    ensures var s, t := Run(es), Run(es + fs);
            && Balanced(s) && Balanced(t) && !t.running
            && WriterSteps(es, fs) + Left(t.phase) <= Left(s.phase) <= 29
            && Taking(t) <= Taking(s)
  {
    hide Run, Balanced, Step, Taking, Left, Turn;
    RunIsBalanced(es);
    LeftIsSmall(Run(es));
    if fs == [] {
      assert es + fs == es;
    } else {
      var front, e := fs[..|fs| - 1], fs[|fs| - 1];
      WriterEnds(es, front);
      assert es + fs == (es + front) + [e];
      RunPush(es + front, e);
      StopIsNear(Run(es + front), e);
      StopTakesNone(Run(es + front), e);
    }
  }

  /** Batches taken, and the one that the writer will take when it wakes. */
  function Taking(s: State): nat {
    |s.batches| + if s.phase.Waiting? then 1 else 0
  }

  lemma StopTakesNone(s: State, e: Event)
    requires !s.running
    ensures Taking(Step(s, e)) <= Taking(s)
  {
  }
}
