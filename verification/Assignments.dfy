/** The migration that leaves one active assignment per conversation
    (alembic/versions/20260330095633_enforce_one_active_crm_conversation_assignment.py:21-50)
    and the pick of the summary backfill that relies on it
    (alembic/versions/20260414102000_add_crm_conversation_summaries.py:173-179). */
module Assignments {
  import opened Options

  /** UUIDs and timestamps are compared only, so numbers stand for them. */
  type Id = nat
  type Time = int

  datatype Row = Row(conversation: Id, agent: Option<Id>, team: Option<Id>,
                     assignedAt: Option<Time>, createdAt: Time, isActive: bool, updatedAt: Time)

  /** `crm_conversation_assignments` by primary key. */
  type Table = map<Id, Row>

  /** `assigned_at DESC NULLS LAST`: `a` sorts strictly before `b`. */
  predicate AssignedBefore(a: Row, b: Row) {
    a.assignedAt.Some? && (b.assignedAt.None? || a.assignedAt.value > b.assignedAt.value)
  }

  /** `assigned_at DESC NULLS LAST, created_at DESC`, the order of the backfill. */
  predicate SummaryBefore(a: Row, b: Row) {
    AssignedBefore(a, b) || (a.assignedAt == b.assignedAt && a.createdAt > b.createdAt)
  }

  /** The same with `id DESC` as last key, the order of the migration. */
  predicate Precedes(t: Table, i: Id, j: Id)
    requires i in t && j in t
  {
    SummaryBefore(t[i], t[j])
    || (t[i].assignedAt == t[j].assignedAt && t[i].createdAt == t[j].createdAt && i > j)
  }

  /** The active assignments of a conversation. */
  function Active(t: Table, c: Id): set<Id> {
    set i | i in t && t[i].isActive && t[i].conversation == c
  }

  /** `row_number()` among the active rows of the same conversation. */
  function RowNumber(t: Table, i: Id): nat
    requires i in t
  {
    1 + |set j | j in Active(t, t[i].conversation) && Precedes(t, j, i)|
  }

  /** The table after the UPDATE, row by row. */
  function Migrated(t: Table, now: Time): Table {
    map i | i in t :: if t[i].isActive && RowNumber(t, i) > 1
                      then t[i].(isActive := false, updatedAt := now) else t[i]
  }

  class AssignmentTable {
    var rows: Table

    constructor (rows: Table)
      ensures this.rows == rows
    {
      this.rows := rows;
    }

    /** `upgrade`: rank the active rows first, then deactivate in place, in any
        order, those ranked below the first. */
    method Upgrade(now: Time)
      modifies this
      ensures rows == Migrated(old(rows), now)
    {
      var ranked := map i | i in rows && rows[i].isActive :: RowNumber(rows, i);
      ghost var before := rows;
      var todo := ranked.Keys;
      while todo != {}
        invariant todo <= ranked.Keys && rows.Keys == before.Keys
        invariant forall i :: i in before ==>
                    rows[i] == if i in ranked && i !in todo then Migrated(before, now)[i] else before[i]
        decreases todo
      {
        var i :| i in todo;
        if ranked[i] > 1 {
          rows := rows[i := rows[i].(isActive := false, updatedAt := now)];
        }
        todo := todo - {i};
      }
    }
  }

  // -------------------------------------------------------------- the top row

  /** `top` comes before every other member of `s`. */
  ghost predicate IsTop(t: Table, s: set<Id>, top: Id) {
    top in s && s <= t.Keys && forall j :: j in s && j != top ==> Precedes(t, top, j)
  }

  lemma PrecedesTrans(t: Table, i: Id, j: Id, k: Id)
    requires i in t && j in t && k in t && Precedes(t, i, j) && Precedes(t, j, k)
    ensures Precedes(t, i, k)
  {
  }

  lemma PrecedesTotal(t: Table, i: Id, j: Id)
    requires i in t && j in t && i != j
    ensures Precedes(t, i, j) <==> !Precedes(t, j, i)
  {
  }

  lemma {:induction false} TopExists(t: Table, s: set<Id>) returns (top: Id)
    requires s != {} && s <= t.Keys
    ensures IsTop(t, s, top)
  {
    var i :| i in s;
    if s == {i} {
      top := i;
    } else {
      var rest := s - {i};
      var r := TopExists(t, rest);
      PrecedesTotal(t, i, r);
      top := if Precedes(t, i, r) then i else r;
      forall j | j in s && j != top ensures Precedes(t, top, j) {
        if j != i && j != r {
          assert j in rest;
          if top == i {
            PrecedesTrans(t, i, r, j);
          }
        }
      }
    }
  }

  /** Row number one goes to the top row and to no other. */
  lemma TopIsFirst(t: Table, c: Id, top: Id, i: Id)
    requires IsTop(t, Active(t, c), top) && i in Active(t, c)
    ensures RowNumber(t, i) == 1 <==> i == top
  {
    var earlier := set j | j in Active(t, c) && Precedes(t, j, i);
    if i == top {
      forall j | j in Active(t, c) ensures !Precedes(t, j, top) {
        if j != top {
          PrecedesTotal(t, top, j);
        }
      }
      assert earlier == {};
    } else {
      assert top in earlier;
    }
  }

  /** After the migration a conversation that had active assignments has exactly
      one, the first in the migration's order; one that had none has none. */
  lemma OneActiveEach(t: Table, now: Time, c: Id) returns (top: Id)
    ensures Active(t, c) == {} ==> Active(Migrated(t, now), c) == {}
    ensures Active(t, c) != {} ==> IsTop(t, Active(t, c), top) && Active(Migrated(t, now), c) == {top}
  {
    top := 0;
    if Active(t, c) != {} {
      top := TopExists(t, Active(t, c));
      forall i | i in Active(t, c) ensures i in Active(Migrated(t, now), c) <==> i == top {
        TopIsFirst(t, c, top, i);
      }
    }
  }

  /** What is left was assigned latest, and at all if any was; of those assigned at one
      time it was created latest; and of those created at one time too it has the
      greatest key. */
  lemma LatestIsKept(t: Table, now: Time, c: Id, i: Id, j: Id)
    requires i in Active(Migrated(t, now), c) && j in Active(t, c) && j != i
    ensures i in t && t[i].isActive && t[i].conversation == c
    ensures t[j].assignedAt.Some? ==> t[i].assignedAt.Some? && t[j].assignedAt.value <= t[i].assignedAt.value
    ensures t[j].assignedAt == t[i].assignedAt ==> t[j].createdAt <= t[i].createdAt
    ensures t[j].assignedAt == t[i].assignedAt && t[j].createdAt == t[i].createdAt ==> j < i
  {
    var top := OneActiveEach(t, now, c);
    assert i == top;
  }

  /** No row appears or disappears; a row changes only if it was active and not
      the first of its conversation, and then only in two columns. */
  lemma OthersKept(t: Table, now: Time, i: Id, top: Id)
    requires i in t && (t[i].isActive ==> IsTop(t, Active(t, t[i].conversation), top))
    ensures Migrated(t, now).Keys == t.Keys
    ensures Migrated(t, now)[i] == if t[i].isActive && i != top
                                   then t[i].(isActive := false, updatedAt := now) else t[i]
  {
    if t[i].isActive {
      TopIsFirst(t, t[i].conversation, top, i);
    }
  }

  /** The partial unique index of lines 42-50 can be created. */
  ghost predicate UniqueActive(t: Table) {
    forall i, j :: (i in t && j in t && t[i].isActive && t[j].isActive
                    && t[i].conversation == t[j].conversation) ==> i == j
  }

  lemma IndexCanBeCreated(t: Table, now: Time)
    ensures UniqueActive(Migrated(t, now))
  {
    var m := Migrated(t, now);
    forall i, j | i in m && j in m && m[i].isActive && m[j].isActive && m[i].conversation == m[j].conversation
      ensures i == j
    {
      var c := m[i].conversation;
      var top := OneActiveEach(t, now, c);
      assert i in Active(m, c) && j in Active(m, c);
      assert i in Active(t, c);
    }
  }

  /** A second run changes nothing; indeed the migration is a no-op exactly on
      the tables that satisfy the index already. */
  lemma NoOpExactlyWhenUnique(t: Table, now: Time)
    ensures UniqueActive(t) ==> Migrated(t, now) == t
    ensures Migrated(t, now) == t ==> UniqueActive(t)
  {
    if UniqueActive(t) {
      forall i | i in t && t[i].isActive ensures RowNumber(t, i) == 1 {
        assert Active(t, t[i].conversation) == {i};
        var earlier := set j | j in Active(t, t[i].conversation) && Precedes(t, j, i);
        assert earlier == {};
      }
    }
    IndexCanBeCreated(t, now);
  }

  lemma SecondRunChangesNothing(t: Table, now: Time, later: Time)
    ensures Migrated(Migrated(t, now), later) == Migrated(t, now)
  {
    IndexCanBeCreated(t, now);
    NoOpExactlyWhenUnique(Migrated(t, now), later);
  }

  // -------------------------------------------------------------- the backfill

  /** `order by ... limit 1` may return `i`: no active row of the conversation
      sorts strictly before it.  Rows that tie are all possible. */
  ghost predicate MayPick(t: Table, c: Id, i: Id) {
    i in Active(t, c) && forall j :: j in Active(t, c) ==> !SummaryBefore(t[j], t[i])
  }

  predicate Tie(t: Table, i: Id, j: Id)
    requires i in t && j in t
  {
    t[i].assignedAt == t[j].assignedAt && t[i].createdAt == t[j].createdAt
  }

  /** On any table the backfill may pick exactly the top row and the active rows that tie with it. */
  lemma PossiblePicks(t: Table, c: Id, top: Id, i: Id)
    requires IsTop(t, Active(t, c), top)
    ensures MayPick(t, c, i) <==> i in Active(t, c) && Tie(t, top, i)
  {
  }

  /** After the migration the tie-prone pick has no choice left: it is the row
      the migration kept, and a conversation without active rows gives none. */
  lemma PickIsForced(t: Table, now: Time, c: Id, i: Id) returns (top: Id)
    ensures Active(t, c) == {} ==> !MayPick(Migrated(t, now), c, i)
    ensures Active(t, c) != {} ==>
              IsTop(t, Active(t, c), top) && (MayPick(Migrated(t, now), c, i) <==> i == top)
  {
    top := OneActiveEach(t, now, c);
    var m := Migrated(t, now);
    if Active(t, c) != {} {
      assert IsTop(m, Active(m, c), top);
      PossiblePicks(m, c, top, i);
    }
  }

  /** Without the migration a tie leaves the backfill two answers. */
  lemma TieIsAmbiguous(c: Id, first: Id, second: Id, at: Option<Time>, created: Time, agents: (Id, Id))
    requires first != second
    ensures var t := map[first := Row(c, Some(agents.0), None, at, created, true, created),
                         second := Row(c, Some(agents.1), None, at, created, true, created)];
            MayPick(t, c, first) && MayPick(t, c, second)
  {
  }
}
