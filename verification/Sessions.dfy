/** Whole sessions at a terminal: keys, reads, and programs that print, escape
    sequences included. */
module Sessions {
  import opened Chars
  import opened Screen
  import opened Editor
  import opened Escape
  import T = Terminal

  datatype Event =
    | Press(k: Key)
    | Print(c: byte)
    | ReadBegins
    | ReadEnds

  /** A program on this terminal runs, and so prints or calls read, only while it is
      not blocked in read. It may switch the modes, but reads whole lines. */
  predicate Possible(c: Console, e: Event) {
    match e
    case Press(k) => Editing(k)
    case Print(_) => !c.tty.reading
    case ReadBegins => !c.tty.reading && !c.tty.canon
    case ReadEnds => c.tty.reading && c.tty.done
  }

  function Step(c: Console, e: Event): (r: Console)
    requires c.Ok()
    ensures r.Ok()
  {
    match e
    case Press(k) => c.(tty := HandleKey(c.tty, k))
    case Print(b) => WriteByte(c, b)
    case ReadBegins => c.(tty := BeginRead(c.tty))
    case ReadEnds => c.(tty := EndRead(c.tty))
  }

  /** trace is a run: each state follows from the one before by a possible event. */
  ghost predicate IsRun(trace: seq<Console>, events: seq<Event>) {
    && |trace| == |events| + 1
    && (forall i :: 0 <= i < |trace| ==> trace[i].Ok())
    && forall i :: 0 <= i < |events| ==> Possible(trace[i], events[i]) && trace[i + 1] == Step(trace[i], events[i])
  }

  /** Unless a line is read without echo the screen shows the line being edited, and
      nothing is being edited unless a read is in progress. */
  ghost predicate Faithful(c: Console) {
    && c.Ok()
    && (if c.tty.reading then !c.tty.canon else c.tty.text == [])
    && ((c.tty.reading && c.tty.noecho) || exists o :: Agrees(c.tty, o))
  }

  /** A terminal as it is set up. */
  lemma FreshFaithful()
    ensures Faithful(T.Term.Fresh())
  {
    var c := T.Term.Fresh();
    assert c.tty.scr.Valid();
    EmptyLineAgrees(c.tty);
  }

  /** Output touches neither the line nor the read. */
  lemma PrintKeepsLine(c: Console, b: byte)
    requires c.Ok()
    ensures var t, t' := c.tty, WriteByte(c, b).tty;
      t'.text == t.text && t'.cur == t.cur && t'.reading == t.reading && t'.done == t.done
  {
    hide EscParse;
    var action := EscParse(c.parser, b).1;
    if action.Call? {
      FuncsKeepLine(c, action.f, action.args);
    }
    hide EscFuncs;
  }

  lemma FuncsKeepLine(c: Console, f: byte, args: seq<byte>)
    requires c.Ok()
    ensures var t, t' := c.tty, EscFuncs(c, f, args).tty;
      t'.text == t.text && t'.cur == t.cur && t'.reading == t.reading && t'.done == t.done
  {
  }

  lemma StepFaithful(c: Console, e: Event)
    requires Faithful(c) && Possible(c, e)
    ensures Faithful(Step(c, e))
  {
    hide HandleKey;
    hide WriteByte;
    hide Agrees;
    var c' := Step(c, e);
    match e
    case Press(k) =>
      if !c.tty.reading {
        IdleKey(c.tty, k);
        EmptyLineAgrees(c'.tty);
      } else if !c.tty.noecho {
        var o :| Agrees(c.tty, o);
        KeyAgrees(c.tty, k, o);
      }
    case Print(b) =>
      PrintKeepsLine(c, b);
      EmptyLineAgrees(c'.tty);
    case ReadBegins =>
      EmptyLineAgrees(c'.tty);
    case ReadEnds =>
      EmptyLineAgrees(c'.tty);
  }

  /** The screen agrees with the line buffer in every state of every session. */
  lemma {:induction false} SessionsFaithful(trace: seq<Console>, events: seq<Event>, n: nat)
    requires IsRun(trace, events) && n < |trace|
    requires Faithful(trace[0])
    ensures Faithful(trace[n])
  {
    if n > 0 {
      SessionsFaithful(trace, events, n - 1);
      StepFaithful(trace[n - 1], events[n - 1]);
    }
  }
}
