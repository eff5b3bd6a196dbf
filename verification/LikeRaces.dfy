/** The discipline of LikeProtocol is the weakest there is: every call that breaks it can end with
    the stores in disagreement. */
module LikeRaces {
  import opened Prelude
  import opened LikeStore
  import Calls = LikeService
  import opened LikeProtocol

  /** A legal run without crashes. */
  ghost predicate Quiet(run: Trace) {
    match run
    case NoEvents => true
    case Extend(r, e) => Quiet(r) && Enabled(After(r), e) && !e.Crash?
  }

  predicate Continues(run: Trace, early: Trace) {
    run == early || (run.Extend? && Continues(run.before, early))
  }

  lemma {:induction false} ContinuesOn(a: Trace, b: Trace, c: Trace)
    requires Continues(a, b) && Continues(b, c)
    ensures Continues(a, c)
  {
    if a != b { ContinuesOn(a.before, b, c); }
  }

  lemma {:induction false} DisciplinedIsQuiet(run: Trace)
    requires Disciplined(run)
    ensures Quiet(run)
  {
    if run.Extend? { DisciplinedIsQuiet(run.before); }
  }

  /** No call in flight and a like set or a sub-counter that does not match the rows. */
  ghost predicate RestsInDisagreement(c: System, l: Like) {
    && c.threads == map[]
    && ((l in c.st.liked) != (l in c.st.rows) || Calls.Drift(c.st, l.post, CounterShard(l.user)) != 0)
  }

  // ---------- the state but for one call that has not begun to write ----------

  function Rest(c: System, x: nat): System {
    System(c.st, c.threads - {x})
  }

  /** x has not written yet, and without it the state is one of a disciplined run. */
  ghost predicate Tame(c: System, x: nat) {
    x in c.threads && c.threads[x].pc == Row && Inv(Rest(c, x))
  }

  lemma InvNext(c: System, e: Event)
    requires Inv(c) && Enabled(c, e) && !e.Crash? && KeepsApart(c, e)
    ensures Inv(Next(c, e))
  {
    BalanceKept(c, e);
    OneKindKept(c, e);
    RowsFollowKept(c, e);
    MarksKept(c, e);
  }

  lemma TameStep(c: System, x: nat, u: nat)
    requires Tame(c, x) && u in c.threads && u != x
    ensures Tame(Next(c, Step(u)), x)
  {
    InvNext(Rest(c, x), Step(u));
    assert Rest(Next(c, Step(u)), x) == Next(Rest(c, x), Step(u));
  }

  lemma TameBegin(c: System, x: nat, u: nat, kind: Calls.Kind, l: Like)
    requires Tame(c, x) && u !in c.threads && forall t :: t in c.threads && t != x ==> c.threads[t].like != l
    ensures Tame(Next(c, Begin(u, kind, l)), x)
  {
    InvNext(Rest(c, x), Begin(u, kind, l));
    assert Rest(Next(c, Begin(u, kind, l)), x) == Next(Rest(c, x), Begin(u, kind, l));
  }

  /** What a command does to the rows. */
  function RowsAfter(st: Store, th: Thread): set<Like> {
    if th.pc == Row then Calls.RowStep(st, th.kind, th.like).rows else st.rows
  }

  lemma CommandRows(st: Store, th: Thread)
    ensures Command(st, th).0.rows == RowsAfter(st, th)
    ensures var next := Advanced(st, th);
      next.Some? ==> next.value.pc != Row && Rank(next.value.pc) < Rank(th.pc)
  {}

  /** Let one call run to its end. */
  lemma {:induction false} FinishOne(run: Trace, x: nat, u: nat) returns (more: Trace)
    requires Quiet(run) && Tame(After(run), x) && u in After(run).threads && u != x
    ensures Quiet(more) && Continues(more, run) && Tame(After(more), x)
    ensures After(more).threads == After(run).threads - {u}
    ensures After(more).st.rows == RowsAfter(After(run).st, After(run).threads[u])
    decreases Rank(After(run).threads[u].pc)
  {
    var c := After(run);
    var next := Extend(run, Step(u));
    TameStep(c, x, u);
    CommandRows(c.st, c.threads[u]);
    if u in After(next).threads {
      more := FinishOne(next, x, u);
      ContinuesOn(more, next, run);
      assert After(next).threads - {u} == c.threads - {u};
    } else {
      more := next;
    }
  }

  /** Let every other call run to its end. */
  lemma {:induction false} FinishOthers(run: Trace, x: nat, w: nat) returns (more: Trace)
    requires Quiet(run) && Tame(After(run), x) && w in After(run).threads && w != x
    ensures Quiet(more) && Continues(more, run) && Tame(After(more), x)
    ensures After(more).threads == map[x := After(run).threads[x], w := After(run).threads[w]]
    decreases |After(run).threads|
  {
    var c := After(run);
    var others := c.threads.Keys - {x, w};
    if others == {} {
      more := run;
      assert c.threads.Keys == {x, w};
    } else {
      var u := Inhabitant(others);
      var next := FinishOne(run, x, u);
      assert After(next).threads.Keys == c.threads.Keys - {u};
      more := FinishOthers(next, x, w);
      ContinuesOn(more, next, run);
    }
  }

  // ---------- calls past their writes ----------

  lemma TailStep(st: Store, th: Thread)
    requires !th.pc.Row? && !th.pc.Mark?
    ensures var (after, pc) := Command(st, th);
      && after.rows == st.rows && after.liked == st.liked
      && (th.pc != Count && th.pc != Clamp ==> after.counters == st.counters)
      && (pc.Some? ==> !pc.value.Row? && !pc.value.Mark? && pc.value != Count && Rank(pc.value) < Rank(th.pc)
                       && (th.pc != Count ==> pc.value != Clamp))
  {}

  /** Past its mark a call changes no row and no mark, and past the clamp no counter. */
  lemma {:induction false} FinishTail(run: Trace, u: nat) returns (more: Trace)
    requires Quiet(run) && u in After(run).threads && !After(run).threads[u].pc.Row? && !After(run).threads[u].pc.Mark?
    ensures Quiet(more) && Continues(more, run) && After(more).threads == After(run).threads - {u}
    ensures After(more).st.rows == After(run).st.rows && After(more).st.liked == After(run).st.liked
    ensures After(run).threads[u].pc != Count && After(run).threads[u].pc != Clamp ==>
      After(more).st.counters == After(run).st.counters
    decreases Rank(After(run).threads[u].pc)
  {
    var c := After(run);
    var next := Extend(run, Step(u));
    TailStep(c.st, c.threads[u]);
    if u in After(next).threads {
      more := FinishTail(next, u);
      ContinuesOn(more, next, run);
      assert After(next).threads - {u} == c.threads - {u};
    } else {
      more := next;
    }
  }

  lemma FinishBoth(run: Trace, x: nat, w: nat) returns (more: Trace)
    requires Quiet(run) && x != w && After(run).threads.Keys == {x, w}
    requires forall t :: t in After(run).threads ==> !After(run).threads[t].pc.Row? && !After(run).threads[t].pc.Mark?
    ensures Quiet(more) && Continues(more, run) && After(more).threads == map[]
    ensures After(more).st.rows == After(run).st.rows && After(more).st.liked == After(run).st.liked
    ensures After(run).threads[x].pc == After(run).threads[w].pc == Invalidate ==>
      After(more).st.counters == After(run).st.counters
  {
    var one := FinishTail(run, x);
    assert After(one).threads[w] == After(run).threads[w];
    more := FinishTail(one, w);
    ContinuesOn(more, one, run);
    assert After(more).threads.Keys == {};
  }

  // ---------- the late mark ----------

  /** w stands between its row and its mark, and x of the other kind has not written: x writes row
      and mark, and w's mark comes last. */
  lemma LateMark(run: Trace, x: nat, w: nat, l: Like) returns (more: Trace)
    requires Quiet(run) && x != w
    requires var c := After(run);
      && c.threads.Keys == {x, w} && c.threads[x].like == c.threads[w].like == l && c.threads[x].pc == Row
      && c.threads[w].pc.Mark? && c.threads[x].kind != c.threads[w].kind && RowAgrees(c.st, c.threads[w])
    ensures Quiet(more) && Continues(more, run) && RestsInDisagreement(After(more), l)
  {
    var a := Extend(run, Step(x));
    assert After(a).threads.Keys == {x, w} && After(a).threads[w] == After(run).threads[w];
    assert After(a).threads[x].pc == Mark(true);
    var b := Extend(a, Step(x));
    assert After(b).threads.Keys == {x, w} && After(b).threads[w] == After(run).threads[w];
    assert After(b).threads[x].pc == Count;
    var d := Extend(b, Step(w));
    assert After(d).threads.Keys == {x, w};
    assert (l in After(d).st.liked) != (l in After(d).st.rows);
    assert Continues(d, run) by {
      assert Continues(a, run);
      assert Continues(b, run);
    }
    more := FinishBoth(d, x, w);
    ContinuesOn(more, d, run);
  }

  // ---------- the lost decrement ----------

  /** Other users take back their likes until only l's row hashes to its sub-counter. */
  lemma {:induction false} OthersUnlike(run: Trace, x: nat, w: nat, l: Like) returns (more: Trace)
    requires Quiet(run) && x != w && Tame(After(run), x) && l in After(run).st.rows
    requires var c := After(run); c.threads.Keys == {x, w} && c.threads[x].like == c.threads[w].like == l
    ensures Quiet(more) && Continues(more, run) && Tame(After(more), x)
    ensures After(more).threads == After(run).threads
    ensures RowsOn(After(more).st.rows, l.post, CounterShard(l.user)) == {l}
    decreases |RowsOn(After(run).st.rows, l.post, CounterShard(l.user))|
  {
    var c, s := After(run), CounterShard(l.user);
    var others := RowsOn(c.st.rows, l.post, s) - {l};
    if others == {} {
      more := run;
      assert RowsOn(c.st.rows, l.post, s) == {l};
    } else {
      var other := Inhabitant(others);
      var begun := OtherBegins(run, x, w, l, other);
      var next := FinishOne(begun, x, x + w + 1);
      assert After(next).threads == c.threads;
      assert After(next).st.rows == c.st.rows - {other};
      RowsOnDelete(c.st.rows, other, l.post, s);
      more := OthersUnlike(next, x, w, l);
      ContinuesOn(next, begun, run);
      ContinuesOn(more, next, run);
    }
  }

  lemma OtherApart(threads: map<nat, Thread>, x: nat, w: nat, l: Like, other: Like)
    requires threads.Keys == {x, w} && threads[x].like == threads[w].like == l && other != l
    ensures x + w + 1 !in threads && forall t :: t in threads ==> threads[t].like != other
  {
    assert forall t :: t in threads <==> t in threads.Keys;
  }

  lemma OtherBegins(run: Trace, x: nat, w: nat, l: Like, other: Like) returns (begun: Trace)
    requires Quiet(run) && x != w && Tame(After(run), x) && other != l
    requires var c := After(run); c.threads.Keys == {x, w} && c.threads[x].like == c.threads[w].like == l
    ensures begun == Extend(run, Begin(x + w + 1, Calls.DoUnlike, other))
    ensures Quiet(begun) && Continues(begun, run) && Tame(After(begun), x)
    ensures After(begun).threads == After(run).threads[x + w + 1 := Thread(Calls.DoUnlike, other, Row)]
    ensures After(begun).st == After(run).st && x + w + 1 !in After(run).threads
  {
    begun := Extend(run, Begin(x + w + 1, Calls.DoUnlike, other));
    OtherApart(After(run).threads, x, w, l, other);
    TameBegin(After(run), x, x + w + 1, Calls.DoUnlike, other);
  }

  /** With one row and its INCR to come, the sub-counter is at zero. */
  lemma CounterAtZero(c: System, x: nat, w: nat, l: Like)
    requires Tame(c, x) && x != w && c.threads.Keys == {x, w} && c.threads[w] == Thread(Calls.DoLike, l, Count)
    requires RowsOn(c.st.rows, l.post, CounterShard(l.user)) == {l}
    ensures SubCounter(c.st, l.post, CounterShard(l.user)) == 0
  {
    var d, s := Rest(c, x), CounterShard(l.user);
    assert Balance(d, l.post, s) == 0;
    assert d.threads.Keys == {w};
    assert Pending(d.threads, Calls.DoLike, l.post, s) == {w};
    assert Pending(d.threads, Calls.DoUnlike, l.post, s) == {};
  }

  lemma RowDeleted(c: System, x: nat, l: Like)
    requires x in c.threads && c.threads[x] == Thread(Calls.DoUnlike, l, Row) && l in c.st.rows
    ensures Next(c, Step(x)) == System(DeleteRow(c.st, l), c.threads[x := Thread(Calls.DoUnlike, l, Mark(true))])
  {}

  lemma MarkRemoved(c: System, x: nat, l: Like)
    requires x in c.threads && c.threads[x] == Thread(Calls.DoUnlike, l, Mark(true))
    ensures Next(c, Step(x)) == System(SRem(c.st, l), c.threads[x := Thread(Calls.DoUnlike, l, Count)])
  {}

  lemma CounterLowered(c: System, x: nat, l: Like)
    requires x in c.threads && c.threads[x] == Thread(Calls.DoUnlike, l, Count)
    requires SubCounter(c.st, l.post, CounterShard(l.user)) == 0
    ensures Next(c, Step(x)) == System(Bump(c.st, l, -1), c.threads[x := Thread(Calls.DoUnlike, l, Clamp)])
  {}

  lemma CounterClamped(c: System, x: nat, l: Like)
    requires x in c.threads && c.threads[x] == Thread(Calls.DoUnlike, l, Clamp)
    ensures Next(c, Step(x)) == System(SetZero(c.st, l), c.threads[x := Thread(Calls.DoUnlike, l, Invalidate)])
  {}

  /** x takes the row and the mark away. */
  lemma UnlikeWrites(run: Trace, x: nat, w: nat, l: Like, th: Thread) returns (more: Trace)
    requires Quiet(run) && x != w && l in After(run).st.rows
    requires After(run).threads == map[x := Thread(Calls.DoUnlike, l, Row), w := th]
    ensures Quiet(more) && Continues(more, run)
    ensures After(more)
         == System(SRem(DeleteRow(After(run).st, l), l), map[x := Thread(Calls.DoUnlike, l, Count), w := th])
  {
    var next := Extend(run, Step(x));
    RowDeleted(After(run), x, l);
    MarkRemoved(After(next), x, l);
    more := Extend(next, Step(x));
    assert Continues(next, run);
    assert After(more).threads == map[x := Thread(Calls.DoUnlike, l, Count), w := th];
  }

  /** x DECRs to -1 and clamps to 0. */
  lemma UnlikeClamps(run: Trace, x: nat, w: nat, l: Like, th: Thread) returns (more: Trace)
    requires Quiet(run) && x != w && SubCounter(After(run).st, l.post, CounterShard(l.user)) == 0
    requires After(run).threads == map[x := Thread(Calls.DoUnlike, l, Count), w := th]
    ensures Quiet(more) && Continues(more, run)
    ensures After(more)
         == System(SetZero(Bump(After(run).st, l, -1), l), map[x := Thread(Calls.DoUnlike, l, Invalidate), w := th])
  {
    var next := Extend(run, Step(x));
    CounterLowered(After(run), x, l);
    CounterClamped(After(next), x, l);
    more := Extend(next, Step(x));
    assert Continues(next, run);
    assert After(more).threads == map[x := Thread(Calls.DoUnlike, l, Invalidate), w := th];
  }

  /** Then w's INCR comes, on no row. */
  lemma LateIncrement(run: Trace, x: nat, w: nat, l: Like) returns (more: Trace)
    requires Quiet(run) && x != w && SubCounter(After(run).st, l.post, CounterShard(l.user)) == 0
    requires RowsOn(After(run).st.rows, l.post, CounterShard(l.user)) == {}
    requires After(run).threads == map[x := Thread(Calls.DoUnlike, l, Invalidate), w := Thread(Calls.DoLike, l, Count)]
    ensures Quiet(more) && Continues(more, run) && RestsInDisagreement(After(more), l)
  {
    var next := Extend(run, Step(w));
    assert After(next).st == Bump(After(run).st, l, 1);
    assert After(next).threads
        == map[x := Thread(Calls.DoUnlike, l, Invalidate), w := Thread(Calls.DoLike, l, Invalidate)];
    more := FinishBoth(next, x, w);
    assert SubCounter(After(more).st, l.post, CounterShard(l.user)) == 1;
    assert Continues(next, run);
    ContinuesOn(more, next, run);
  }

  lemma LostDecrement(run: Trace, x: nat, w: nat, l: Like) returns (more: Trace)
    requires Quiet(run) && x != w && RowsOn(After(run).st.rows, l.post, CounterShard(l.user)) == {l}
    requires var c := After(run);
      && c.threads == map[x := Thread(Calls.DoUnlike, l, Row), w := Thread(Calls.DoLike, l, Count)]
      && SubCounter(c.st, l.post, CounterShard(l.user)) == 0
    ensures Quiet(more) && Continues(more, run) && RestsInDisagreement(After(more), l)
  {
    var th := Thread(Calls.DoLike, l, Count);
    assert l in RowsOn(After(run).st.rows, l.post, CounterShard(l.user));
    var written := UnlikeWrites(run, x, w, l, th);
    var clamped := UnlikeClamps(written, x, w, l, th);
    assert RowsOn(After(run).st.rows - {l}, l.post, CounterShard(l.user)) == {};
    more := LateIncrement(clamped, x, w, l);
    ContinuesOn(clamped, written, run);
    ContinuesOn(more, clamped, run);
  }

  // ---------- the theorem ----------

  /** The call x breaks the discipline: w, of the other kind and on the same like, is still writing. */
  ghost predicate Breaks(c: System, x: nat, w: nat) {
    && x in c.threads && w in c.threads && x != w && Tame(c, x)
    && c.threads[x].like == c.threads[w].like && c.threads[x].kind != c.threads[w].kind && Writing(c.threads[w])
  }

  lemma BrokenFromMark(run: Trace, x: nat, w: nat, l: Like) returns (more: Trace)
    requires Quiet(run) && Breaks(After(run), x, w)
    requires After(run).threads.Keys == {x, w} && After(run).threads[w].like == l
    requires After(run).threads[w].pc.Mark?
    ensures Quiet(more) && Continues(more, run) && RestsInDisagreement(After(more), l)
  {
    assert w in Rest(After(run), x).threads;
    assert RowAgrees(After(run).st, After(run).threads[w]);
    more := LateMark(run, x, w, l);
  }

  lemma BrokenFromRow(run: Trace, x: nat, w: nat, l: Like) returns (more: Trace)
    requires Quiet(run) && Breaks(After(run), x, w)
    requires After(run).threads.Keys == {x, w} && After(run).threads[w].like == l
    requires After(run).threads[w].pc.Row?
    ensures Quiet(more) && Continues(more, run) && RestsInDisagreement(After(more), l)
  {
    var next := Extend(run, Step(w));
    TameStep(After(run), x, w);
    assert After(next).threads.Keys == {x, w} && After(next).threads[x] == After(run).threads[x];
    more := BrokenFromMark(next, x, w, l);
    ContinuesOn(more, next, run);
  }

  lemma BrokenFromCount(run: Trace, x: nat, w: nat, l: Like) returns (more: Trace)
    requires Quiet(run) && Breaks(After(run), x, w)
    requires After(run).threads.Keys == {x, w} && After(run).threads[w].like == l
    requires After(run).threads[w].pc == Count
    ensures Quiet(more) && Continues(more, run) && RestsInDisagreement(After(more), l)
  {
    var c := After(run);
    assert w in Rest(c, x).threads;
    assert RowAgrees(c.st, c.threads[w]);
    var next := OthersUnlike(run, x, w, l);
    CounterAtZero(After(next), x, w, l);
    assert After(next).threads == map[x := Thread(Calls.DoUnlike, l, Row), w := Thread(Calls.DoLike, l, Count)];
    more := LostDecrement(next, x, w, l);
    ContinuesOn(more, next, run);
  }

  lemma BrokenAlone(run: Trace, x: nat, w: nat, l: Like) returns (more: Trace)
    requires Quiet(run) && Breaks(After(run), x, w)
    requires After(run).threads.Keys == {x, w} && After(run).threads[w].like == l
    ensures Quiet(more) && Continues(more, run) && RestsInDisagreement(After(more), l)
  {
    if After(run).threads[w].pc.Row? {
      more := BrokenFromRow(run, x, w, l);
    } else if After(run).threads[w].pc.Mark? {
      more := BrokenFromMark(run, x, w, l);
    } else {
      more := BrokenFromCount(run, x, w, l);
    }
  }

  lemma BegunIsTame(c: System, e: Event)
    requires Inv(c) && e.Begin? && Enabled(c, e)
    ensures Tame(Next(c, e), e.t)
  {
    assert Rest(Next(c, e), e.t) == c;
  }

  /** The discipline cannot be weakened. Take any disciplined run and let a call begin while one of
      the other kind, by the same user on the same post, is still writing. Whatever else is in
      flight, there is a way to go on, with every command succeeding, to a state at rest in which the
      like set or the sub-counter of that like is wrong. */
  lemma BreakingTheDisciplineDrifts(run: Trace, e: Event) returns (more: Trace)
    requires Disciplined(run) && e.Begin? && Enabled(After(run), e) && !KeepsApart(After(run), e)
    ensures Quiet(more) && Continues(more, Extend(run, e)) && RestsInDisagreement(After(more), e.like)
  {
    var c, x, begun := After(run), e.t, Extend(run, e);
    DisciplinedKeepsInv(run);
    DisciplinedIsQuiet(run);
    BegunIsTame(c, e);
    var w :| w in c.threads && c.threads[w].like == e.like && Writing(c.threads[w]) && c.threads[w].kind != e.kind;
    assert After(begun).threads[w] == c.threads[w];
    var alone := FinishOthers(begun, x, w);
    more := BrokenAlone(alone, x, w, e.like);
    ContinuesOn(more, alone, begun);
  }
}
