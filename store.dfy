/** The translation set as a value: applying one event, folding a sequence of events
    in arrival order, and the flat From -> To table the set is projected into when it
    is persisted. */
module TranslationStore {
  import opened Wrappers
  import opened Translations

  /** The set after one event: a Deleted event removes its translation, any other kind
      inserts it, and no other translation is touched. */
  function Apply(s: set<Translation>, e: Event): (r: set<Translation>)
    ensures e.kind != Deleted ==> e.translation in r
    ensures e.kind == Deleted ==> e.translation !in r
    ensures forall t :: t != e.translation ==> (t in r <==> t in s)
  {
    if e.kind == Deleted then s - {e.translation} else s + {e.translation}
  }

  /** The left fold of Apply over events taken in arrival order. */
  function ApplyAll(s: set<Translation>, es: seq<Event>): set<Translation>
    decreases |es|
  {
    if es == [] then s else ApplyAll(Apply(s, es[0]), es[1..])
  }

  /** Re-inserting a translation that is present changes nothing. */
  lemma UpsertPresentIsNoOp(s: set<Translation>, e: Event)
    requires e.kind != Deleted && e.translation in s
    ensures Apply(s, e) == s
  {
  }

  /** Deleting a translation that is absent changes nothing. */
  lemma DeleteAbsentIsNoOp(s: set<Translation>, e: Event)
    requires e.kind == Deleted && e.translation !in s
    ensures Apply(s, e) == s
  {
  }

  /** Deleting a translation leaves its reverse as it was: the set is not a
      symmetric relation. */
  lemma DeleteKeepsReverse(s: set<Translation>, t: Translation)
    requires t.from != t.to
    ensures Reverse(t) in Apply(s, Event(t, Deleted)) <==> Reverse(t) in s
  {
    assert Reverse(t) != t;
  }

  /** Applying the same event twice is the same as applying it once. */
  lemma ApplyIdempotent(s: set<Translation>, e: Event)
    ensures Apply(Apply(s, e), e) == Apply(s, e)
  {
  }

  /** An upsert followed by a deletion of the same, previously absent, translation
      gives back the set it started from. */
  lemma {:induction false} AddThenDeleteRestores(s: set<Translation>, t: Translation, k: EventType)
    requires t !in s && k != Deleted
    ensures ApplyAll(s, [Event(t, k), Event(t, Deleted)]) == s
  {
    var s1 := Apply(s, Event(t, k));
    calc {
      ApplyAll(s, [Event(t, k), Event(t, Deleted)]);
      ApplyAll(s1, [Event(t, Deleted)]);
      ApplyAll(Apply(s1, Event(t, Deleted)), []);
    }
    assert Apply(s1, Event(t, Deleted)) == s;
  }

  /** Folding a concatenation is folding the first part, then the second. */
  lemma {:induction false} ApplyAllAppend(s: set<Translation>, a: seq<Event>, b: seq<Event>)
    ensures ApplyAll(s, a + b) == ApplyAll(ApplyAll(s, a), b)
    decreases |a|
  {
    if a == [] {
      assert a + b == b;
    } else {
      assert (a + b)[1..] == a[1..] + b;
      ApplyAllAppend(Apply(s, a[0]), a[1..], b);
    }
  }

  /** The fold over one more event is the old fold with that event applied last. */
  lemma ApplyAllSnoc(s: set<Translation>, es: seq<Event>, e: Event)
    ensures ApplyAll(s, es + [e]) == Apply(ApplyAll(s, es), e)
  {
    ApplyAllAppend(s, es, [e]);
    assert ApplyAll(Apply(ApplyAll(s, es), e), []) == Apply(ApplyAll(s, es), e);
  }

  /** The kind of the last event in es that carries t, if any. */
  function LastKindFor(es: seq<Event>, t: Translation): Option<EventType>
    decreases |es|
  {
    if es == [] then None
    else if es[|es| - 1].translation == t then Some(es[|es| - 1].kind)
    else LastKindFor(es[..|es| - 1], t)
  }

  /** Whether t is present after the events es, judged only from the last event that
      carries t, and from the starting set when no event does. */
  predicate PresentAfter(s: set<Translation>, es: seq<Event>, t: Translation)
  {
    match LastKindFor(es, t)
    case None => t in s
    case Some(k) => k != Deleted
  }

  /** The fold agrees with the reference definition: a translation is in the final set
      exactly when the last event about it was an upsert, or no event was about it and
      it was there to begin with. */
  lemma {:induction false} ApplyAllMembership(s: set<Translation>, es: seq<Event>, t: Translation)
    ensures t in ApplyAll(s, es) <==> PresentAfter(s, es, t)
    decreases |es|
  {
    if es != [] {
      var init, e := es[..|es| - 1], es[|es| - 1];
      assert es == init + [e];
      ApplyAllSnoc(s, init, e);
      if e.translation != t {
        ApplyAllMembership(s, init, t);
      }
    }
  }

  /** The From addresses of a set of translations. */
  function Froms(s: set<Translation>): set<string>
  {
    set t | t in s :: t.from
  }

  /** No two translations of s share a From. */
  ghost predicate DistinctFroms(s: set<Translation>)
  {
    forall t, u :: t in s && u in s && t.from == u.from ==> t == u
  }

  /** m is a flat table of s: one key per distinct From, each mapped to a To that it
      is paired with in s. Which To is chosen when several share a From is left open. */
  ghost predicate IsProjection(s: set<Translation>, m: map<string, string>)
  {
    && m.Keys == Froms(s)
    && forall k :: k in m ==> Translation(k, m[k]) in s
  }

  /** Adding one translation to a set adds its From to the Froms. */
  lemma FromsInsert(s: set<Translation>, t: Translation)
    ensures Froms(s + {t}) == Froms(s) + {t.from}
  {
    assert t in s + {t};
  }

  /** Setting the table entry of t.from to t.to turns a table of s into a table of
      s + {t}: the translation processed last wins its From. */
  lemma ProjectionInsert(s: set<Translation>, m: map<string, string>, t: Translation)
    requires IsProjection(s, m)
    ensures IsProjection(s + {t}, m[t.from := t.to])
  {
    FromsInsert(s, t);
  }

  /** The only table of the empty set is the empty table. */
  lemma ProjectionOfEmpty(m: map<string, string>)
    ensures IsProjection({}, m) <==> m == map[]
  {
    assert Froms({}) == {};
  }

  /** When Froms are distinct, every member (f, t) of the set appears as f: t. */
  lemma ProjectionCoversDistinct(s: set<Translation>, m: map<string, string>)
    requires IsProjection(s, m) && DistinctFroms(s)
    ensures forall t :: t in s ==> t.from in m && m[t.from] == t.to
  {
    forall t | t in s
      ensures t.from in m && m[t.from] == t.to
    {
      assert t.from in Froms(s);
      assert Translation(t.from, m[t.from]) in s;
    }
  }

  /** When Froms are distinct, the table is determined by the set. */
  lemma ProjectionUnique(s: set<Translation>, m1: map<string, string>, m2: map<string, string>)
    requires IsProjection(s, m1) && IsProjection(s, m2) && DistinctFroms(s)
    ensures m1 == m2
  {
    ProjectionCoversDistinct(s, m1);
    ProjectionCoversDistinct(s, m2);
    forall k | k in m1
      ensures m1[k] == m2[k]
    {
      assert Translation(k, m1[k]) in s;
    }
  }

  /** There are never more distinct Froms than translations, and exactly as many when
      no two translations share a From. */
  lemma {:induction false} FromsCardinality(s: set<Translation>)
    ensures |Froms(s)| <= |s|
    ensures |Froms(s)| == |s| <==> DistinctFroms(s)
    decreases |s|
  {
    if s == {} {
      assert Froms(s) == {};
    } else {
      var t :| t in s;
      var rest := s - {t};
      assert s == rest + {t};
      FromsCardinality(rest);
      FromsInsert(rest, t);
      if t.from in Froms(rest) {
        var u :| u in rest && u.from == t.from;
        assert u != t;
        assert !DistinctFroms(s);
      } else {
        assert |Froms(s)| == |Froms(rest)| + 1;
        if DistinctFroms(rest) {
          forall x | x in rest
            ensures x.from != t.from
          {
            assert x.from in Froms(rest);
          }
        } else {
          var a, b :| a in rest && b in rest && a.from == b.from && a != b;
          assert !DistinctFroms(s);
        }
      }
    }
  }

  /** The persisted table has one entry per distinct From: at most one per translation,
      and exactly one per translation when no two share a From. */
  lemma ProjectionSize(s: set<Translation>, m: map<string, string>)
    requires IsProjection(s, m)
    ensures |m| <= |s|
    ensures |m| == |s| <==> DistinctFroms(s)
  {
    FromsCardinality(s);
    assert |m| == |m.Keys|;
  }
}
