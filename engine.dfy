/**
 * The timing state machine of `src/dialogue_engine.rs`: it turns elapsed time
 * into advances of a dialogue cursor, then lingers on the finished text and
 * clears itself.
 *
 * The cursor, the annotated string it produces and the error dialogue are
 * collaborators whose definitions are not part of this model; they are kept
 * abstract here (see `Cursor`, `AnnotatedString`, `Script`).
 */
module Engine {
  import opened Wrappers
  import opened Unicase
  import Dialogues

  /** The engine's tunables: how long a finished dialogue lingers and how much time one cursor step costs. */
  datatype Options = Options(lineLingerTime: real, textRate: real)

  /** `DialogueEngineOptions::default`. */
  function DefaultOptions(): (o: Options)
    ensures o.lineLingerTime == 240.0 && o.textRate == 0.75
    ensures o.textRate > 0.0 && o.lineLingerTime > 1.0
  {
    Options(240.0, 0.75)
  }

  /** What the engine is asked to play: a script section, or an error dialogue built from a message. */
  datatype Script = Section(dialogue: Dialogues.Dialogue) | FromError(message: string)

  /**
   * `dialogue_name_eq`: sections are the same dialogue when their names and
   * file names are equal ignoring ASCII case; error dialogues when their
   * messages are equal.
   */
  predicate SameScript(a: Script, b: Script)
  {
    match (a, b)
    case (Section(x), Section(y)) => Dialogues.SameSection(x, y)
    case (FromError(m), FromError(n)) => m == n
    case _ => false
  }

  lemma SameScriptReflexive(a: Script)
    ensures SameScript(a, a)
  {
    if a.Section? {
      EqAsciiIsEquivalence(a.dialogue.name, a.dialogue.name, a.dialogue.name);
      EqAsciiIsEquivalence(a.dialogue.filename, a.dialogue.filename, a.dialogue.filename);
    }
  }

  /**
   * The dialogue cursor, abstracted to the dialogue it walks, the number of
   * steps it has taken and the number of steps it can still take.
   */
  datatype Cursor = Cursor(dialogue: Script, taken: nat, remaining: nat)

  /** `DialogueCursor::new`: a cursor at the start of `d` that can advance `steps` times. */
  function NewCursor(d: Script, steps: nat): Cursor
  {
    Cursor(d, 0, steps)
  }

  /**
   * `DialogueCursor::incr`: one step forward, reporting whether it moved. The
   * remaining steps strictly decrease on every step that moves; an exhausted
   * cursor reports `false` and stays as it is.
   */
  function Incr(c: Cursor): (r: (Cursor, bool))
    ensures r.1 <==> c.remaining > 0
    ensures r.1 ==> r.0 == c.(taken := c.taken + 1, remaining := c.remaining - 1)
    ensures !r.1 ==> r.0 == c
  {
    if c.remaining == 0 then (c, false)
    else (c.(taken := c.taken + 1, remaining := c.remaining - 1), true)
  }

  /** The rendered text with its annotations, abstracted to the cursor position it was taken at. */
  datatype AnnotatedString = Blank | View(dialogue: Script, position: nat)

  /** `DialogueCursor::get`: the snapshot of what the cursor shows. */
  function Snapshot(c: Cursor): AnnotatedString
  {
    View(c.dialogue, c.taken)
  }

  /** The engine's fields apart from its options. */
  datatype EngineState = EngineState(cursor: Option<Cursor>, annotated: AnnotatedString, t: real, lingerT: real)

  /** What `clear` leaves: no cursor, an empty snapshot and both timers at zero. */
  const Idle: EngineState := EngineState(None, Blank, 0.0, 0.0)

  /**
   * `DialogueEngine::queue`: re-queueing the dialogue the cursor already walks
   * only halves the linger timer; anything else clears the engine and starts a
   * fresh cursor on `d`.
   */
  function Queued(s: EngineState, d: Script, steps: nat): (r: EngineState)
    ensures r.cursor.Some? && SameScript(r.cursor.value.dialogue, d)
    ensures s.cursor.Some? && SameScript(s.cursor.value.dialogue, d) ==>
      r.cursor == s.cursor && r.annotated == s.annotated && r.t == s.t && r.lingerT * 2.0 == s.lingerT
    ensures !(s.cursor.Some? && SameScript(s.cursor.value.dialogue, d)) ==>
      r.cursor == Some(Cursor(d, 0, steps)) && r.annotated == Blank && r.t == 0.0 && r.lingerT == 0.0
  {
    SameScriptReflexive(d);
    if s.cursor.Some? && SameScript(s.cursor.value.dialogue, d) then s.(lingerT := s.lingerT / 2.0)
    else Idle.(cursor := Some(NewCursor(d, steps)))
  }

  /**
   * The reveal loop of `tick`: while the accumulator exceeds `rate`, subtract
   * `rate` and step the cursor once; stop early when a step reports the
   * cursor exhausted. Yields the cursor, the accumulator and whether it
   * stopped on exhaustion.
   */
  function Drain(c: Cursor, t: real, rate: real): (Cursor, real, bool)
    decreases c.remaining
  {
    if t <= rate then (c, t, false)
    else
      var (c', moved) := Incr(c);
      if !moved then (c', t - rate, true) else Drain(c', t - rate, rate)
  }

  /**
   * `DialogueEngine::tick`: nothing when idle; a lingering engine only counts
   * the linger time and clears once it exceeds the configured maximum; a
   * revealing engine adds `dt` to the accumulator, drains it into cursor
   * steps, enters lingering if the cursor ran out, and takes one snapshot.
   */
  function Ticked(s: EngineState, o: Options, dt: real): EngineState
  {
    if s.cursor.None? then s
    else if s.lingerT > 0.0 then
      var lingerT := s.lingerT + dt;
      if lingerT > o.lineLingerTime then Idle else s.(lingerT := lingerT)
    else
      var (c, t, exhausted) := Drain(s.cursor.value, s.t + dt, o.textRate);
      EngineState(Some(c), Snapshot(c), t, if exhausted then 1.0 else s.lingerT)
  }

  // ---------------------------------------------------------------------------
  // Properties

  /**
   * The reveal loop subtracts exactly `rate` per iteration and steps the cursor
   * once per iteration: with `n` iterations the accumulator drops by `n * rate`;
   * all iterations but an exhausting last one move the cursor, which keeps its
   * dialogue and its total length. Afterwards either the accumulator is at
   * most `rate`, or a step found the cursor exhausted.
   */
  lemma {:induction false} DrainSteps(c: Cursor, t: real, rate: real)
    ensures var (c', t', exhausted) := Drain(c, t, rate);
      var n := c'.taken - c.taken + (if exhausted then 1 else 0);
      c'.dialogue == c.dialogue && c.taken <= c'.taken &&
      c'.taken + c'.remaining == c.taken + c.remaining &&
      t' == t - n as real * rate &&
      (exhausted ==> c'.remaining == 0) &&
      (!exhausted ==> t' <= rate)
    decreases c.remaining
  {
    if t > rate && c.remaining > 0 {
      var (c', _) := Incr(c);
      DrainSteps(c', t - rate, rate);
    }
  }

  /**
   * With a positive rate, a reveal loop that runs at least once and does not
   * run out of cursor leaves the accumulator in `(0, rate]`: the remainder
   * carried to the next tick is never zero or negative.
   */
  lemma {:induction false} DrainKeepsAccumulatorPositive(c: Cursor, t: real, rate: real)
    requires rate > 0.0
    ensures var (_, t', exhausted) := Drain(c, t, rate);
      !exhausted && t > rate ==> 0.0 < t' <= rate
    decreases c.remaining
  {
    if t > rate && c.remaining > 0 {
      var (c', _) := Incr(c);
      DrainKeepsAccumulatorPositive(c', t - rate, rate);
    }
  }

  /**
   * Queueing is idempotent up to the linger timer: queueing `d` again right
   * after queueing it only halves the timer once more.
   */
  lemma QueueSameTwice(s: EngineState, d: Script, steps: nat, steps': nat)
    ensures var once := Queued(s, d, steps);
      Queued(once, d, steps') == once.(lingerT := once.lingerT / 2.0)
  {
  }

  /**
   * A tick on an idle engine changes nothing; a lingering tick only adds `dt`
   * to the linger timer, without stepping the cursor or touching the snapshot,
   * and clears the engine exactly when the timer passes `lineLingerTime`.
   */
  lemma TickIdleOrLingering(s: EngineState, o: Options, dt: real)
    ensures s.cursor.None? ==> Ticked(s, o, dt) == s
    ensures s.cursor.Some? && s.lingerT > 0.0 ==>
      var r := Ticked(s, o, dt);
      (s.lingerT + dt > o.lineLingerTime ==> r == Idle) &&
      (s.lingerT + dt <= o.lineLingerTime ==>
        r.cursor == s.cursor && r.annotated == s.annotated && r.t == s.t && r.lingerT == s.lingerT + dt)
  {
  }

  /**
   * A revealing tick keeps the dialogue, never moves the cursor back, takes
   * the snapshot from the cursor it leaves, and either ends with the
   * accumulator at most `textRate` or with the cursor exhausted and the linger
   * timer seeded with 1.
   */
  lemma TickRevealing(s: EngineState, o: Options, dt: real)
    requires s.cursor.Some? && s.lingerT <= 0.0
    ensures var r := Ticked(s, o, dt);
      r.cursor.Some? && r.cursor.value.dialogue == s.cursor.value.dialogue &&
      s.cursor.value.taken <= r.cursor.value.taken &&
      r.annotated == Snapshot(r.cursor.value) &&
      ((r.t <= o.textRate && r.lingerT == s.lingerT) ||
       (r.cursor.value.remaining == 0 && r.lingerT == 1.0))
  {
    DrainSteps(s.cursor.value, s.t + dt, o.textRate);
  }

  // ---------------------------------------------------------------------------
  // The engine object

  /** `DialogueEngine`: its options and the state its methods update in place. */
  class DialogueEngine {
    var options: Options
    var cursor: Option<Cursor>
    var annotated: AnnotatedString
    var t: real
    var lingerT: real

    function State(): EngineState
      reads this
    {
      EngineState(cursor, annotated, t, lingerT)
    }

    /** The derived default: default options, idle. */
    constructor ()
      ensures options == DefaultOptions() && State() == Idle
    {
      options := DefaultOptions();
      cursor := None;
      annotated := Blank;
      t := 0.0;
      lingerT := 0.0;
    }

    method Queue(d: Script, steps: nat)
      modifies this
      ensures options == old(options)
      ensures State() == Queued(old(State()), d, steps)
    {
      if cursor.Some? {
        if SameScript(cursor.value.dialogue, d) {
          // Already queued: shorten the linger.
          lingerT := lingerT / 2.0;
          return;
        }
      }
      Clear();
      cursor := Some(NewCursor(d, steps));
    }

    method Clear()
      modifies this
      ensures options == old(options)
      ensures State() == Idle
    {
      cursor := None;
      annotated := Blank;
      t := 0.0;
      lingerT := 0.0;
    }

    method Tick(dtNorm: real)
      modifies this
      ensures options == old(options)
      ensures State() == Ticked(old(State()), options, dtNorm)
    {
      if cursor.None? {
        return;
      }
      if lingerT > 0.0 {
        lingerT := lingerT + dtNorm;
        if lingerT > options.lineLingerTime {
          Clear();
        }
        return;
      }
      t := t + dtNorm;
      ghost var start := cursor.value;
      ghost var t0 := t;
      while t > options.textRate
        invariant options == old(options)
        invariant cursor.Some? && lingerT == old(lingerT)
        invariant Drain(cursor.value, t, options.textRate) == Drain(start, t0, options.textRate)
        decreases cursor.value.remaining
      {
        t := t - options.textRate;
        var (next, moved) := Incr(cursor.value);
        cursor := Some(next);
        if !moved {
          // Out of text: start lingering.
          lingerT := 1.0;
          break;
        }
      }
      annotated := Snapshot(cursor.value);
    }
  }
}
