/** The emitted mutation events, replayed (bboltstore/store.go and events.go). */
module Replay {
  import opened Documents
  import opened Engine
  import opened Runs

  /** Fold the events over an empty document map. */
  ghost function Replayed(events: seq<Mutation>): map<string, Doc> {
    if events == [] then map[]
    else
      var m, e := Replayed(events[..|events| - 1]), events[|events| - 1];
      if e.kind.Retract? then m - {e.doc} else m[e.doc := e.now]
  }

  /** Zero-length documents are invisible to events: they decode to nil. */
  ghost function Visible(docs: map<string, Doc>): map<string, Doc> {
    map d | d in docs && !docs[d].Blank? :: docs[d]
  }

  /** An event says what happened to the replayed content at its point in the log. */
  ghost predicate EventRight(m: map<string, Doc>, e: Mutation) {
    && e.was == DocAt(m, e.doc)
    && (e.kind.Assert? ==> e.was.Blank?)
    && (e.kind.Change? ==> !e.was.Blank?)
    && (e.kind.Retract? ==> !e.was.Blank? && e.now.Blank?)
  }

  ghost predicate LogRight(events: seq<Mutation>, docs: map<string, Doc>) {
    && Visible(Replayed(events)) == Visible(docs)
    && forall i :: 0 <= i < |events| ==> EventRight(Replayed(events[..i]), events[i])
  }

  lemma VisibleAt(docs: map<string, Doc>, d: string)
    ensures DocAt(docs, d) == DocAt(Visible(docs), d)
  {
  }

  lemma LogStep(events: seq<Mutation>, docs: map<string, Doc>, e: Mutation, docs': map<string, Doc>)
    requires LogRight(events, docs) && e.was == DocAt(docs, e.doc)
    requires if e.was.Blank? then e.kind.Assert? else !e.kind.Assert?
    requires if e.kind.Retract? then e.now.Blank? && docs' == docs - {e.doc} else docs' == docs[e.doc := e.now]
    ensures LogRight(events + [e], docs')
  {
    var log := events + [e];
    VisibleAt(docs, e.doc);
    VisibleAt(Replayed(events), e.doc);
    assert log[..|log| - 1] == events;
    VisibleStep(Replayed(events), docs, e.doc, e.now);
    forall i | 0 <= i < |log| ensures EventRight(Replayed(log[..i]), log[i]) {
      assert log[..i] == events[..i];
    }
  }

  lemma VisibleStep(m: map<string, Doc>, docs: map<string, Doc>, d: string, doc: Doc)
    requires Visible(m) == Visible(docs)
    ensures Visible(m - {d}) == Visible(docs - {d}) && Visible(m[d := doc]) == Visible(docs[d := doc])
  {
    assert Visible(m - {d}) == Visible(m) - {d} && Visible(docs - {d}) == Visible(docs) - {d};
    assert Visible(m[d := doc]) == (if doc.Blank? then Visible(m) - {d} else Visible(m)[d := doc]);
    assert Visible(docs[d := doc]) == (if doc.Blank? then Visible(docs) - {d} else Visible(docs)[d := doc]);
  }

  /**
   Over every run: replaying the emitted events rebuilds the visible documents, every event carries the
   content it replaced, and its kind is right. Rolled-back transactions add nothing to the log.
   */
  lemma {:induction false} RunLogRight(h: Host, ops: seq<Op>, trace: seq<State>, n: nat)
    requires IsRun(h, ops, trace) && n <= |ops|
    ensures LogRight(trace[n].events, trace[n].docs)
  {
    if n > 0 {
      RunLogRight(h, ops, trace, n - 1);
      assert StepAt(h, ops, trace, n - 1);
      StepLogRight(h, trace[n - 1], ops[n - 1], trace[n]);
    }
  }

  /** What a committed operation does to the log and the documents. */
  ghost predicate Emits(events: seq<Mutation>, docs: map<string, Doc>, op: Op, events': seq<Mutation>,
                        docs': map<string, Doc>) {
    match op
    case Put(d, doc) =>
      var was := DocAt(docs, d);
      docs' == docs[d := doc] && events' == events + [Mutation(if was.Blank? then Assert else Change, d, was, doc)]
    case Delete(d) =>
      docs' == docs - {d} &&
      events' == if DocAt(docs, d).Blank? then events else events + [Mutation(Retract, d, docs[d], Blank)]
    case ReadStats(_) => docs' == docs && events' == events
  }

  lemma StepEmits(h: Host, s: State, op: Op, t: State)
    requires Committed(h, s, op, t)
    ensures Emits(s.events, s.docs, op, t.events, t.docs)
  {
  }

  lemma {:induction false} EmitsRight(events: seq<Mutation>, docs: map<string, Doc>, op: Op, events': seq<Mutation>,
                                      docs': map<string, Doc>)
    requires LogRight(events, docs) && Emits(events, docs, op, events', docs')
    ensures LogRight(events', docs')
  {
    match op
    case Put(d, doc) =>
      var was := DocAt(docs, d);
      LogStep(events, docs, Mutation(if was.Blank? then Assert else Change, d, was, doc), docs');
    case Delete(d) =>
      if DocAt(docs, d).Blank? {
        assert Visible(docs') == Visible(docs);
      } else {
        LogStep(events, docs, Mutation(Retract, d, docs[d], Blank), docs');
      }
    case ReadStats(_) =>
  }

  lemma {:induction false} StepLogRight(h: Host, s: State, op: Op, t: State)
    requires LogRight(s.events, s.docs) && Step(h, s, op, t)
    ensures LogRight(t.events, t.docs)
  {
    if t != s {
      StepEmits(h, s, op, t);
      EmitsRight(s.events, s.docs, op, t.events, t.docs);
    }
  }

  /** The replay and the documents agree, and no document is zero-length. */
  ghost predicate Replays(s: State) {
    Replayed(s.events) == s.docs && forall d :: d in s.docs ==> !s.docs[d].Blank?
  }

  lemma ReplayLast(events: seq<Mutation>, e: Mutation)
    ensures Replayed(events + [e])
         == if e.kind.Retract? then Replayed(events) - {e.doc} else Replayed(events)[e.doc := e.now]
  {
    assert (events + [e])[..|events|] == events;
  }

  lemma {:induction false} StepReplays(h: Host, s: State, op: Op, t: State)
    requires Replays(s) && Step(h, s, op, t) && (op.Put? ==> !op.doc.Blank?)
    ensures Replays(t)
  {
    if t != s {
      match op
      case Put(d, doc) =>
        var was := DocAt(s.docs, d);
        ReplayLast(s.events, Mutation(if was.Blank? then Assert else Change, d, was, doc));
      case Delete(d) =>
        ReplayLast(s.events, Mutation(Retract, d, DocAt(s.docs, d), Blank));
        assert d !in s.docs ==> s.docs - {d} == s.docs;
      case ReadStats(_) =>
    }
  }

  /** With no zero-length documents the replay is the document map itself. */
  lemma {:induction false} RunReplays(h: Host, ops: seq<Op>, trace: seq<State>, n: nat)
    requires IsRun(h, ops, trace) && n <= |ops|
    requires forall i :: 0 <= i < |ops| && ops[i].Put? ==> !ops[i].doc.Blank?
    ensures Replayed(trace[n].events) == trace[n].docs
    ensures forall d :: d in trace[n].docs ==> !trace[n].docs[d].Blank?
  {
    if n > 0 {
      RunReplays(h, ops, trace, n - 1);
      assert StepAt(h, ops, trace, n - 1);
      StepReplays(h, trace[n - 1], ops[n - 1], trace[n]);
    }
  }

  /** One document's kinds: absent -assert-> present -change-> present -retract-> absent. */
  ghost function Kinds(events: seq<Mutation>, d: string): (r: Option<bool>) {
    if events == [] then Some(false)
    else
      var before, e := Kinds(events[..|events| - 1], d), events[|events| - 1];
      if before.None? || e.doc != d then before
      else match e.kind
        case Assert => if before.value then None else Some(true)
        case Change => if before.value then Some(true) else None
        case Retract => if before.value then Some(false) else None
  }

  /** Each document's events read (assert change* retract)*, and end present exactly for live documents. */
  lemma {:induction false} KindsFollow(events: seq<Mutation>, d: string)
    requires forall i :: 0 <= i < |events| ==> EventRight(Replayed(events[..i]), events[i])
    requires forall i :: 0 <= i < |events| && !events[i].kind.Retract? ==> !events[i].now.Blank?
    ensures Kinds(events, d) == Some(d in Replayed(events))
    ensures forall c :: c in Replayed(events) ==> !Replayed(events)[c].Blank?
    decreases |events|
  {
    if events != [] {
      var init := events[..|events| - 1];
      assert forall i :: 0 <= i < |init| ==> init[..i] == events[..i];
      KindsFollow(init, d);
      assert EventRight(Replayed(events[..|events| - 1]), events[|events| - 1]);
    }
  }

  /** Every event but a retraction brings a document that is there. */
  ghost predicate NewsVisible(events: seq<Mutation>) {
    forall i :: 0 <= i < |events| && !events[i].kind.Retract? ==> !events[i].now.Blank?
  }

  lemma StepNews(h: Host, s: State, op: Op, t: State)
    requires NewsVisible(s.events) && Step(h, s, op, t) && (op.Put? ==> !op.doc.Blank?)
    ensures NewsVisible(t.events)
  {
  }

  lemma {:induction false} RunNews(h: Host, ops: seq<Op>, trace: seq<State>, n: nat)
    requires IsRun(h, ops, trace) && n <= |ops|
    requires forall i :: 0 <= i < |ops| && ops[i].Put? ==> !ops[i].doc.Blank?
    ensures NewsVisible(trace[n].events)
  {
    if n > 0 {
      RunNews(h, ops, trace, n - 1);
      assert StepAt(h, ops, trace, n - 1);
      StepNews(h, trace[n - 1], ops[n - 1], trace[n]);
    }
  }

  /** On every run without zero-length puts each document's kinds follow, and end present exactly when it is live. */
  lemma {:induction false} RunKinds(h: Host, ops: seq<Op>, trace: seq<State>, n: nat, d: string)
    requires IsRun(h, ops, trace) && n <= |ops|
    requires forall i :: 0 <= i < |ops| && ops[i].Put? ==> !ops[i].doc.Blank?
    ensures Kinds(trace[n].events, d) == Some(d in trace[n].docs)
  {
    RunLogRight(h, ops, trace, n);
    RunReplays(h, ops, trace, n);
    RunNews(h, ops, trace, n);
    KindsFollow(trace[n].events, d);
  }

  /** As long as a document's kinds follow, they say whether the replay holds it. */
  lemma {:induction false} KindsTrack(events: seq<Mutation>, d: string)
    requires Kinds(events, d).Some?
    ensures Kinds(events, d).value == (d in Replayed(events))
    decreases |events|
  {
    if events != [] { KindsTrack(events[..|events| - 1], d); }
  }

  /**
   A Put continues the document's kinds if and only if the replay does not hold it as zero-length content:
   over such a document it asserts a second time.
   */
  lemma {:induction false} PutKindsExactly(h: Host, s: State, d: string, doc: Doc, t: State)
    requires LogRight(s.events, s.docs) && PutTx(h, s, d, doc, t) && Kinds(s.events, d).Some?
    ensures Kinds(t.events, d).Some? <==> !(d in Replayed(s.events) && Replayed(s.events)[d].Blank?)
    ensures Kinds(t.events, d).Some? ==> Kinds(t.events, d).value
  {
    KindsTrack(s.events, d);
    StepEmits(h, s, Op.Put(d, doc), t);
    EmittedPut(s.events, s.docs, d, doc);
  }

  lemma {:induction false} EmittedPut(events: seq<Mutation>, docs: map<string, Doc>, d: string, doc: Doc)
    requires LogRight(events, docs) && Kinds(events, d) == Some(d in Replayed(events))
    ensures var was := DocAt(docs, d);
            var after := Kinds(events + [Mutation(if was.Blank? then Assert else Change, d, was, doc)], d);
            && (after.Some? <==> !(d in Replayed(events) && Replayed(events)[d].Blank?))
            && (after.Some? ==> after.value)
  {
    var was := DocAt(docs, d);
    VisibleAt(docs, d);
    VisibleAt(Replayed(events), d);
    KindsLast(events, Mutation(if was.Blank? then Assert else Change, d, was, doc));
  }

  lemma KindsLast(events: seq<Mutation>, e: Mutation)
    requires Kinds(events, e.doc).Some?
    ensures Kinds(events + [e], e.doc).Some? <==> Kinds(events, e.doc).value == !e.kind.Assert?
    ensures Kinds(events + [e], e.doc).Some? ==> Kinds(events + [e], e.doc).value == !e.kind.Retract?
  {
    assert (events + [e])[..|events|] == events;
  }

  /** A Delete always continues them: it retracts visible content, and is silent about the rest. */
  lemma {:induction false} DeleteKindsExactly(h: Host, s: State, d: string, t: State)
    requires LogRight(s.events, s.docs) && DeleteTx(h, s, d, t) && Kinds(s.events, d).Some?
    ensures Kinds(t.events, d) == if DocAt(s.docs, d).Blank? then Kinds(s.events, d) else Some(false)
  {
    KindsTrack(s.events, d);
    StepEmits(h, s, Op.Delete(d), t);
    if !DocAt(s.docs, d).Blank? { EmittedDelete(s.events, s.docs, d); }
  }

  lemma {:induction false} EmittedDelete(events: seq<Mutation>, docs: map<string, Doc>, d: string)
    requires LogRight(events, docs) && Kinds(events, d) == Some(d in Replayed(events)) && !DocAt(docs, d).Blank?
    ensures Kinds(events + [Mutation(Retract, d, docs[d], Blank)], d) == Some(false)
  {
    VisibleAt(docs, d);
    VisibleAt(Replayed(events), d);
    KindsLast(events, Mutation(Retract, d, docs[d], Blank));
  }

  /** Where the replay is exact, a Delete keeps it exact except when the document is zero-length. */
  lemma {:induction false} DeleteReplaysExactly(h: Host, s: State, d: string, t: State)
    requires Replayed(s.events) == s.docs && DeleteTx(h, s, d, t)
    ensures Replayed(t.events) == t.docs <==> !(d in s.docs && s.docs[d].Blank?)
  {
    if !DocAt(s.docs, d).Blank? {
      assert t.events[..|t.events| - 1] == s.events;
    } else {
      assert t.events == s.events;
      assert d !in s.docs ==> s.docs - {d} == s.docs;
    }
  }
}
