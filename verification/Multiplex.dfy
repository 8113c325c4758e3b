/** Three terminals sharing one hardware screen: each behaves as if it had a
    private screen and received only its own output and keys. */
module Multiplex {
  import opened Chars
  import S = Screen
  import E = Editor
  import P = Escape
  import T = Terminal
  import L = LineEditor

  const TERM_NUM := 3

  datatype Op =
    | Putc(t: nat, c: byte)
    | Clear(t: nat)
    | ScrollUp(t: nat)
    | Write(t: nat, c: byte)
    | Type(k: E.Key)
    | Switch(ind: nat)

  predicate Legal(op: Op) {
    match op
    case Putc(t, _) => t < TERM_NUM
    case Clear(t) => t < TERM_NUM
    case ScrollUp(t) => t < TERM_NUM
    case Write(t, _) => t < TERM_NUM
    case Type(_) => true
    case Switch(ind) => ind < TERM_NUM
  }

  /** Which terminal is on the hardware screen after op. */
  function NextShown(op: Op, shown: nat): nat {
    match op
    case Switch(ind) => ind
    case Type(k) => if E.SwitchesTerminal(k) then k.key - E.KEY_F1 else shown
    case _ => shown
  }

  /** op is output of terminal t, or a key typed while t is shown. */
  predicate Concerns(op: Op, shown: nat, t: nat) {
    match op
    case Putc(u, _) => u == t
    case Clear(u) => u == t
    case ScrollUp(u) => u == t
    case Write(u, _) => u == t
    case Type(k) => shown == t && !E.SwitchesTerminal(k)
    case Switch(_) => false
  }

  /** What op does to a terminal alone on its own screen. */
  function Alone(c: P.Console, op: Op): (r: P.Console)
    requires c.Ok()
    ensures r.Ok()
  {
    match op
    case Putc(_, b) => P.WithScreen(c, S.Putc(c.tty.scr, b))
    case Clear(_) => P.WithScreen(c, S.Clear(c.tty.scr))
    case ScrollUp(_) => P.WithScreen(c, S.Scroll(c.tty.scr))
    case Write(_, b) => P.WriteByte(c, b)
    case Type(k) => c.(tty := E.HandleKey(c.tty, k))
    case Switch(_) => c
  }

  function AloneRun(c: P.Console, ops: seq<Op>): (r: P.Console)
    requires c.Ok()
    ensures r.Ok()
    decreases |ops|
  {
    if ops == [] then c else AloneRun(Alone(c, ops[0]), ops[1..])
  }

  /** The operations that concern terminal t, in order. */
  function Mine(ops: seq<Op>, shown: nat, t: nat): seq<Op> {
    if ops == [] then []
    else (if Concerns(ops[0], shown, t) then [ops[0]] else []) + Mine(ops[1..], NextShown(ops[0], shown), t)
  }

  function ShownAfter(ops: seq<Op>, shown: nat): nat {
    if ops == [] then shown else ShownAfter(ops[1..], NextShown(ops[0], shown))
  }

  lemma MineStep(c: P.Console, ops: seq<Op>, shown: nat, t: nat)
    requires c.Ok() && ops != []
    ensures AloneRun(c, Mine(ops, shown, t)) ==
      AloneRun(if Concerns(ops[0], shown, t) then Alone(c, ops[0]) else c, Mine(ops[1..], NextShown(ops[0], shown), t))
  {
    var rest := Mine(ops[1..], NextShown(ops[0], shown), t);
    if Concerns(ops[0], shown, t) {
      assert ([ops[0]] + rest)[1..] == rest;
    } else {
      assert [] + rest == rest;
    }
  }

  lemma NothingMine(c: P.Console, shown: nat, t: nat)
    requires c.Ok()
    ensures AloneRun(c, Mine([], shown, t)) == c
  {
  }

  method Perform(term: T.Term, op: Op)
    requires term.Valid() && Legal(op)
    modifies term, term.videoMem, term.termBuf, term.buf, term.args
    ensures term.Valid() && term.Now() == Alone(old(term.Now()), op)
    ensures term.videoMem == old(term.videoMem)
  {
    match op {
      case Putc(_, c) => term.Putc(c);
      case Clear(_) => term.Clear();
      case ScrollUp(_) => term.Scroll();
      case Write(_, c) => term.WriteByte(c);
      case Type(k) => term.HandleKey(k);
      case Switch(_) =>
    }
  }

  class Screens {
    const hw: array<S.Cell>
    const term0: T.Term
    const term1: T.Term
    const term2: T.Term
    /** cur_term_ind */
    var shown: nat

    /** init_term */
    constructor ()
      ensures Valid() && shown == 0
      ensures fresh(Footprint())
      ensures forall t :: 0 <= t < TERM_NUM ==>
        Logical(t) == T.Term.Fresh()
    {
      hide T.Term.Now;
      hide P.Console.Ok;
      hide T.Term.Fresh;
      hide T.Term.Valid;
      var h := new S.Cell[S.SIZE];
      var a := new T.Term(h);
      var b := new T.Term(null);
      var c := new T.Term(null);
      hw, term0, term1, term2, shown := h, a, b, c, 0;
    }

    function Of(t: nat): T.Term {
      if t == 0 then term0 else if t == 1 then term1 else term2
    }

    /** The terminals share nothing but the hardware screen. */
    ghost predicate Apart(a: T.Term, b: T.Term)
    {
      && a != b
      && {a.termBuf, a.buf, a.args} !! {b.termBuf, b.buf, b.args}
      && a.videoBuffer != b.videoBuffer
      && a.videoBuffer != hw && b.videoBuffer != hw
    }

    ghost predicate Wired()
      reads this, term0, term1, term2
    {
      && hw.Length == S.SIZE && shown < TERM_NUM
      && Apart(term0, term1) && Apart(term0, term2) && Apart(term1, term2)
      && term0.videoMem == (if shown == 0 then hw else term0.videoBuffer)
      && term1.videoMem == (if shown == 1 then hw else term1.videoBuffer)
      && term2.videoMem == (if shown == 2 then hw else term2.videoBuffer)
    }

    ghost function Footprint(): set<object>
      reads this
    {
      {hw, term0, term1, term2,
       term0.termBuf, term0.buf, term0.args, term0.videoBuffer,
       term1.termBuf, term1.buf, term1.args, term1.videoBuffer,
       term2.termBuf, term2.buf, term2.args, term2.videoBuffer}
    }

    ghost predicate Valid()
      reads this, Footprint()
    {
      Wired() && term0.Valid() && term1.Valid() && term2.Valid()
    }

    /** The logical state of terminal t: its screen is the hardware's if it is
        shown, and its own buffer otherwise. */
    ghost function Logical(t: nat): P.Console
      requires Valid()
      reads this, Footprint()
    {
      Of(t).Now()
    }

    /** An operation of terminal t leaves the others alone. */
    method OnTerminal(op: Op, t: nat)
      requires Valid() && Legal(op) && t < TERM_NUM && Concerns(op, shown, t)
      modifies Of(t), Of(t).videoMem, Of(t).termBuf, Of(t).buf, Of(t).args
      ensures Valid()
      ensures Logical(t) == Alone(old(Logical(t)), op)
      ensures forall u :: 0 <= u < TERM_NUM && u != t ==> Logical(u) == old(Logical(u))
    {
      hide P.Console.Ok;
      hide T.Term.Now;
      hide Alone;
      hide Concerns;
      hide Legal;
      if t == 0 {
        Perform(term0, op);
      } else if t == 1 {
        Perform(term1, op);
      } else {
        Perform(term2, op);
      }
    }

    /** Between the two halves of a switch every terminal is on its own buffer. */
    ghost predicate AllHidden()
      reads this, Footprint()
    {
      && hw.Length == S.SIZE
      && Apart(term0, term1) && Apart(term0, term2) && Apart(term1, term2)
      && term0.videoMem == term0.videoBuffer
      && term1.videoMem == term1.videoBuffer
      && term2.videoMem == term2.videoBuffer
      && term0.Valid() && term1.Valid() && term2.Valid()
    }

    method SaveShown()
      requires Valid()
      modifies Of(shown)`videoMem, Of(shown).videoBuffer
      ensures AllHidden()
      ensures forall u :: 0 <= u < TERM_NUM ==> Of(u).Now() == old(Logical(u))
    {
      hide P.Console.Ok;
      hide T.Term.Now;
      if shown == 0 {
        term0.SaveScreen();
      } else if shown == 1 {
        term1.SaveScreen();
      } else {
        term2.SaveScreen();
      }
    }

    method ShowTerm(ind: nat)
      requires AllHidden() && ind < TERM_NUM
      modifies `shown, Of(ind)`videoMem, Of(ind)`curX, Of(ind)`curY, hw
      ensures Valid() && shown == ind
      ensures forall u :: 0 <= u < TERM_NUM ==> Logical(u) == old(Of(u).Now())
    {
      hide P.Console.Ok;
      hide T.Term.Now;
      shown := ind;
      if ind == 0 {
        term0.ShowOn(hw);
      } else if ind == 1 {
        term1.ShowOn(hw);
      } else {
        term2.ShowOn(hw);
      }
    }

    /** switch_term: the outgoing screen is saved, the incoming one shown, and no
        terminal notices. */
    method SwitchTerm(ind: nat)
      requires Valid() && ind < TERM_NUM
      modifies this, Footprint()
      ensures Valid() && shown == ind
      ensures forall u :: 0 <= u < TERM_NUM ==> Logical(u) == old(Logical(u))
    {
      hide P.Console.Ok;
      hide T.Term.Now;
      if ind == shown {
        return;
      }
      SaveShown();
      ShowTerm(ind);
    }

    method Do(op: Op)
      requires Valid() && Legal(op)
      modifies this, Footprint()
      ensures Valid() && shown == NextShown(op, old(shown))
      ensures forall t :: 0 <= t < TERM_NUM ==>
        Logical(t) == if Concerns(op, old(shown), t) then Alone(old(Logical(t)), op) else old(Logical(t))
    {
      hide P.Console.Ok;
      hide T.Term.Now;
      hide Alone;
      match op {
        case Switch(ind) => SwitchTerm(ind);
        case Type(k) =>
          if E.SwitchesTerminal(k) {
            SwitchTerm(k.key - E.KEY_F1);
          } else {
            OnTerminal(op, shown);
          }
        case _ => OnTerminal(op, op.t);
      }
    }

    /** Alt and a function key put a terminal on the screen and change nothing else. */
    method FunctionKey(ind: nat)
      requires Valid() && ind < 3
      modifies this, Footprint()
      ensures Valid() && shown == ind
      ensures forall t :: 0 <= t < 3 ==> Logical(t) == old(Logical(t))
    {
      hide T.Term.Now;
      hide P.Console.Ok;
      hide E.HandleKey;
      Do(Type(E.Key(0x20, 0x8A + ind)));
    }

    /** Keys typed after that edit that terminal's line, as its user expects, and reach
        no other terminal. */
    method TypeOn(ind: nat, keys: seq<E.Key>)
      requires Valid() && ind < 3
      requires forall i :: 0 <= i < |keys| ==> !(keys[i].modifiers == 0x20 && 0x8A <= keys[i].key <= 0x8C)
      modifies this, Footprint()
      ensures Valid() && shown == ind
      ensures var t := old(Logical(ind).tty);
        L.LineOf(Logical(ind).tty) == L.TypedAll(L.LineOf(t), keys, t.reading, t.canon)
      ensures forall t :: 0 <= t < 3 && t != ind ==> Logical(t) == old(Logical(t))
    {
      hide T.Term.Now;
      hide E.HandleKey;
      hide L.HandleKeys;
      hide L.LineOf;
      hide L.TypedAll;
      FunctionKey(ind);
      ghost var t := Logical(ind).tty;
      L.KeysRefine(t, keys);
      L.NoKeys(t);
      for i := 0 to |keys|
        invariant Valid() && shown == ind
        invariant Logical(ind).tty == L.HandleKeys(t, keys[..i])
        invariant forall u :: 0 <= u < 3 && u != ind ==> Logical(u) == old(Logical(u))
      {
        L.OneMoreKey(t, keys, i);
        Do(Type(keys[i]));
      }
      assert keys[..|keys|] == keys;
    }

    /** Any interleaving leaves each terminal as its own operations alone would. */
    method DoAll(ops: seq<Op>)
      requires Valid() && forall i :: 0 <= i < |ops| ==> Legal(ops[i])
      modifies this, Footprint()
      ensures Valid() && shown == ShownAfter(ops, old(shown))
      ensures forall t :: 0 <= t < TERM_NUM ==>
        Logical(t) == AloneRun(old(Logical(t)), Mine(ops, old(shown), t))
    {
      hide P.Console.Ok;
      hide T.Term.Now;
      hide Alone;
      hide AloneRun;
      hide Mine;
      hide Concerns;
      hide NextShown;
      for i := 0 to |ops|
        invariant Valid() && ShownAfter(ops[i..], shown) == ShownAfter(ops, old(shown))
        invariant forall t :: 0 <= t < TERM_NUM ==>
          AloneRun(Logical(t), Mine(ops[i..], shown, t)) == AloneRun(old(Logical(t)), Mine(ops, old(shown), t))
      {
        assert ops[i..][0] == ops[i] && ops[i..][1..] == ops[i + 1..];
        ghost var before := map t | 0 <= t < TERM_NUM :: Logical(t);
        ghost var was := shown;
        Do(ops[i]);
        forall t | 0 <= t < TERM_NUM
          ensures AloneRun(Logical(t), Mine(ops[i + 1..], shown, t)) == AloneRun(before[t], Mine(ops[i..], was, t))
        {
          MineStep(before[t], ops[i..], was, t);
        }
      }
      assert ops[|ops|..] == [];
      forall t | 0 <= t < TERM_NUM
        ensures AloneRun(Logical(t), Mine([], shown, t)) == Logical(t)
      {
        NothingMine(Logical(t), shown, t);
      }
    }
  }
}
