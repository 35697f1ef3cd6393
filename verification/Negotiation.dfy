/**
 The negotiation of the cursor reply, read off the log of what the machine did: which commands were
 answered, which were met with silence, and what the client may conclude from that.
 */
module Negotiation {
  import opened Wire
  import opened HelperProtocol
  import opened HelperServer

  function CursorBytes(extended: bool): nat {
    4 * (CURSOR_WORDS + if extended then 1 else 0)
  }

  /** An extended command whose reply's metadata arrived whole. */
  predicate Answered2(a: Act) {
    a.Asked? && a.command.kind == CMD_GET_CURSOR2 && RecvRun(a.script, |a.sent|, CursorBytes(true)).Completed?
  }

  /** An extended command that was not answered: refused by an old helper, or cut off by a dying one. */
  predicate Silent2(a: Act) {
    a.Asked? && a.command.kind == CMD_GET_CURSOR2 && RecvRun(a.script, |a.sent|, CursorBytes(true)).Lost?
  }

  function Latest(log: seq<Act>): Act
    requires log != []
  {
    log[|log| - 1]
  }

  ghost predicate Known2(log: seq<Act>) {
    exists a :: a in log && Answered2(a)
  }

  /** An unanswered extended command was the latest thing to happen. */
  predicate Pending2(log: seq<Act>) {
    log != [] && Silent2(Latest(log))
  }

  /** Extended commands met with silence and at once with a fresh helper, before any was answered. */
  ghost function Strikes(log: seq<Act>): (n: nat) {
    if log == [] then 0
    else
      var front := log[..|log| - 1];
      Strikes(front) + if Latest(log) == Spawned(true) && Pending2(front) && !Known2(front) then 1 else 0
  }

  /** The extended command is for fewer than two strikes, the legacy one for two. */
  predicate InOrder(a: Act, strikes: nat) {
    && (a.Asked? && a.command.kind == CMD_GET_CURSOR2 ==> strikes < 2)
    && (a.Asked? && a.command.kind == CMD_GET_CURSOR ==> strikes >= 2)
  }

  ghost predicate Orderly(log: seq<Act>) {
    forall i | 0 <= i < |log| :: InOrder(log[i], Strikes(log[..i]))
  }

  /** The latches say exactly what happened; the fallback is never latched where the extended command was answered. */
  ghost predicate Agreed(log: seq<Act>, noCursor2: bool, cursor2Ok: bool, retried: bool) {
    && (cursor2Ok <==> Known2(log))
    && (retried <==> Strikes(log) >= 1)
    && (noCursor2 <==> Strikes(log) >= 2)
    && !(noCursor2 && cursor2Ok) && Orderly(log)
  }

  lemma NextAct(log: seq<Act>, a: Act)
    ensures Latest(log + [a]) == a && (Known2(log + [a]) <==> Known2(log) || Answered2(a))
    ensures Strikes(log + [a]) == Strikes(log) + if a == Spawned(true) && Pending2(log) && !Known2(log) then 1 else 0
    ensures Orderly(log) ==> (Orderly(log + [a]) <==> InOrder(a, Strikes(log)))
  {
    hide Answered2, Silent2, InOrder, Orderly;
    var next := log + [a];
    assert next[..|log|] == log && next[|log|] == a;
    if x :| x in log && Answered2(x) { assert x in next; }
    if Answered2(a) { assert a in next; }
    NextInOrder(log, a);
  }

  lemma NextInOrder(log: seq<Act>, a: Act)
    ensures Orderly(log) ==> (Orderly(log + [a]) <==> InOrder(a, Strikes(log)))
  {
    hide InOrder, Strikes;
    var next := log + [a];
    assert next[..|log|] == log && next[|log|] == a;
    forall i | 0 <= i < |log| ensures next[..i] == log[..i] && next[i] == log[i] {}
    if Orderly(log) && InOrder(a, Strikes(log)) {
      forall i | 0 <= i < |next| ensures InOrder(next[i], Strikes(next[..i])) {
        if i < |log| { assert InOrder(log[i], Strikes(log[..i])); }
      }
    }
  }

  /** Anything but a cursor command, and not the spawn that answers a silence, leaves the latches right. */
  lemma AgreedKept(log: seq<Act>, a: Act, noCursor2: bool, cursor2Ok: bool, retried: bool)
    requires Agreed(log, noCursor2, cursor2Ok, retried)
    requires a.Asked? ==> a.command.kind == CMD_GRAB
    requires a == Spawned(true) && Pending2(log) ==> cursor2Ok
    ensures Agreed(log + [a], noCursor2, cursor2Ok, retried) && !Pending2(log + [a])
  {
    hide Known2, Strikes, Orderly;
    NextAct(log, a);
  }

  /** A cursor command of the kind the latches call for. */
  lemma AgreedAsked(log: seq<Act>, a: Act, noCursor2: bool, cursor2Ok: bool, retried: bool)
    requires Agreed(log, noCursor2, cursor2Ok, retried)
    requires a.Asked? && a.command.kind == if noCursor2 then CMD_GET_CURSOR else CMD_GET_CURSOR2
    ensures Agreed(log + [a], noCursor2, cursor2Ok || Answered2(a), retried)
    ensures Pending2(log + [a]) <==> Silent2(a)
  {
    hide Known2, Strikes, Orderly;
    NextAct(log, a);
  }

  /** A strike: the first lets the client retry, the second latches the fallback. */
  lemma AgreedStrike(log: seq<Act>, retried: bool)
    requires Agreed(log, false, false, retried) && Pending2(log)
    ensures Agreed(log + [Spawned(true)], retried, false, true) && !Pending2(log + [Spawned(true)])
  {
    hide Known2, Strikes, Orderly;
    NextAct(log, Spawned(true));
  }
}
