/**
 * The editions reducer (src/reducers/editions.js): the part of the Redux
 * store that mirrors the server's list of Editions.  Each field of `State`
 * is one slice of the reducer, and each slice is a function of its own old
 * value and the action; `Reduce` combines them as `combineReducers` does.
 */
module Editions {
  import opened Wrappers
  import opened Actions

  /** The four boolean statuses combined under `status`. */
  datatype Status = Status(
    isFetchingEditions: bool,
    createEditionModalViewVisible: bool,
    deleteEditionModalViewVisible: bool,
    toggleEditionPublishedModalViewVisible: bool)

  /** The error slots combined under `errors`; there is only one. */
  datatype Errors = Errors(fetchEditionsError: Option<ServerError>)

  datatype State = State(
    editions: map<Id, Edition>,
    editionIdsNewestToOldest: seq<Id>,
    errors: Errors,
    status: Status,
    selectedEditionId: Option<Id>)

  /** The state every slice starts from when the store is created. */
  function Initial(): (s: State)
    ensures s.editions == map[] && s.editionIdsNewestToOldest == []
    ensures s.errors.fetchEditionsError == None && s.selectedEditionId == None
    ensures !s.status.isFetchingEditions && !s.status.createEditionModalViewVisible
    ensures !s.status.deleteEditionModalViewVisible && !s.status.toggleEditionPublishedModalViewVisible
  {
    State(map[], [], Errors(None), Status(false, false, false, false), None)
  }

  // ---------------------------------------------------------------------
  // Sequences of ids
  // ---------------------------------------------------------------------

  /** The ids of a list of editions, in list order (`editions.map(e => e.id)`). */
  function IdsOf(es: seq<Edition>): (ids: seq<Id>)
    ensures |ids| == |es|
    ensures forall i :: 0 <= i < |es| ==> ids[i] == es[i].id
  {
    if es == [] then [] else [es[0].id] + IdsOf(es[1..])
  }

  predicate NoDuplicates(ids: seq<Id>)
  {
    forall i, j :: 0 <= i < j < |ids| ==> ids[i] != ids[j]
  }

  function Elements(ids: seq<Id>): set<Id>
  {
    set id | id in ids
  }

  /** `ids.filter(elem => elem !== x)`. */
  function Without(ids: seq<Id>, x: Id): (r: seq<Id>)
    ensures forall y :: y in r <==> y in ids && y != x
    ensures |r| <= |ids|
  {
    if ids == [] then []
    else if ids[0] == x then Without(ids[1..], x)
    else [ids[0]] + Without(ids[1..], x)
  }

  /** `t` is `s` with some elements dropped and the rest kept in order. */
  predicate IsSubsequence(t: seq<Id>, s: seq<Id>)
    decreases |s|
  {
    if t == [] then true
    else if s == [] then false
    else if t[0] == s[0] then IsSubsequence(t[1..], s[1..])
    else IsSubsequence(t, s[1..])
  }

  lemma {:induction false} WithoutIsSubsequence(ids: seq<Id>, x: Id)
    ensures IsSubsequence(Without(ids, x), ids)
  {
    if ids != [] {
      WithoutIsSubsequence(ids[1..], x);
      var r := Without(ids, x);
      if ids[0] == x {
        SkipHead(Without(ids[1..], x), ids);
      } else {
        assert r[0] == ids[0] && r[1..] == Without(ids[1..], x);
      }
    }
  }

  /** Adding an element in front of `s` keeps every subsequence of `s[1..]` a subsequence. */
  lemma {:induction false} SkipHead(t: seq<Id>, s: seq<Id>)
    requires s != [] && IsSubsequence(t, s[1..])
    ensures IsSubsequence(t, s)
    decreases |s|, 0
  {
    if t != [] && t[0] == s[0] {
      SubsequenceTail(t, s[1..]);
    }
  }

  /** Dropping the first element of a subsequence leaves a subsequence. */
  lemma {:induction false} SubsequenceTail(t: seq<Id>, s: seq<Id>)
    requires t != [] && IsSubsequence(t, s)
    ensures IsSubsequence(t[1..], s)
    decreases |s|, 1
  {
    if t[0] == s[0] {
      if t[1..] != [] {
        SkipHead(t[1..], s);
      }
    } else {
      SubsequenceTail(t, s[1..]);
      if t[1..] != [] {
        SkipHead(t[1..], s);
      }
    }
  }

  /** Filtering removes exactly the occurrences of `x` and leaves every other count alone. */
  lemma {:induction false} WithoutMultiset(ids: seq<Id>, x: Id)
    ensures multiset(Without(ids, x)) == multiset(ids)[x := 0]
  {
    if ids != [] {
      WithoutMultiset(ids[1..], x);
      assert ids == [ids[0]] + ids[1..];
      assert multiset(ids) == multiset{ids[0]} + multiset(ids[1..]);
    }
  }

  /** Filtering distributes over concatenation: it works element by element, in order. */
  lemma {:induction false} WithoutConcat(a: seq<Id>, b: seq<Id>, x: Id)
    ensures Without(a + b, x) == Without(a, x) + Without(b, x)
  {
    if a != [] {
      WithoutConcat(a[1..], b, x);
      assert (a + b)[1..] == a[1..] + b;
    } else {
      assert a + b == b;
    }
  }

  lemma {:induction false} WithoutAbsent(ids: seq<Id>, x: Id)
    requires x !in ids
    ensures Without(ids, x) == ids
  {
    if ids != [] {
      WithoutAbsent(ids[1..], x);
      assert ids == [ids[0]] + ids[1..];
    }
  }

  lemma {:induction false} WithoutNoDuplicates(ids: seq<Id>, x: Id)
    requires NoDuplicates(ids)
    ensures NoDuplicates(Without(ids, x))
  {
    if ids != [] {
      var tail := ids[1..];
      assert NoDuplicates(tail) by {
        forall i, j | 0 <= i < j < |tail| ensures tail[i] != tail[j] {
          assert tail[i] == ids[i + 1] && tail[j] == ids[j + 1];
        }
      }
      WithoutNoDuplicates(tail, x);
      if ids[0] != x {
        assert ids[0] !in Elements(tail) by {
          forall j | 0 <= j < |tail| ensures tail[j] != ids[0] {
            assert tail[j] == ids[j + 1];
          }
        }
        var rest := Without(tail, x);
        var r := [ids[0]] + rest;
        forall i, j | 0 <= i < j < |r| ensures r[i] != r[j] {
          if i == 0 {
            assert r[j] == rest[j - 1];
            assert rest[j - 1] in Elements(rest);
          } else {
            assert r[i] == rest[i - 1] && r[j] == rest[j - 1];
          }
        }
      }
    }
  }

  // ---------------------------------------------------------------------
  // Building the map from a fetched list
  // ---------------------------------------------------------------------

  /**
   * `es.reduce((map, e) => map.set(e.id, e), acc)`: a left fold, so when two
   * editions share an id the later one in the list wins.
   */
  function SetAll(acc: map<Id, Edition>, es: seq<Edition>): map<Id, Edition>
    decreases |es|
  {
    if es == [] then acc else SetAll(acc[es[0].id := es[0]], es[1..])
  }

  lemma {:induction false} SetAllKeys(acc: map<Id, Edition>, es: seq<Edition>)
    ensures SetAll(acc, es).Keys == acc.Keys + Elements(IdsOf(es))
    decreases |es|
  {
    if es != [] {
      SetAllKeys(acc[es[0].id := es[0]], es[1..]);
      assert IdsOf(es) == [es[0].id] + IdsOf(es[1..]);
    }
  }

  lemma {:induction false} SetAllUntouched(acc: map<Id, Edition>, es: seq<Edition>, k: Id)
    requires k in acc && k !in IdsOf(es)
    ensures k in SetAll(acc, es) && SetAll(acc, es)[k] == acc[k]
    decreases |es|
  {
    if es != [] {
      assert IdsOf(es) == [es[0].id] + IdsOf(es[1..]);
      SetAllUntouched(acc[es[0].id := es[0]], es[1..], k);
    }
  }

  /** The map entry for an id is the LAST edition in the list carrying that id. */
  lemma {:induction false} SetAllLastWins(acc: map<Id, Edition>, es: seq<Edition>, i: nat)
    requires i < |es|
    requires forall j :: i < j < |es| ==> es[j].id != es[i].id
    ensures es[i].id in SetAll(acc, es) && SetAll(acc, es)[es[i].id] == es[i]
    decreases |es|
  {
    var acc' := acc[es[0].id := es[0]];
    if i == 0 {
      assert es[0].id !in IdsOf(es[1..]) by {
        forall j | 0 <= j < |es[1..]| ensures IdsOf(es[1..])[j] != es[0].id {
          assert es[1..][j] == es[j + 1];
        }
      }
      SetAllUntouched(acc', es[1..], es[0].id);
    } else {
      forall j | i - 1 < j < |es[1..]| ensures es[1..][j].id != es[1..][i - 1].id {
        assert es[1..][j] == es[j + 1];
      }
      SetAllLastWins(acc', es[1..], i - 1);
    }
  }

  // ---------------------------------------------------------------------
  // The slices
  // ---------------------------------------------------------------------

  /** Slice `editions`: the map from edition id to edition record. */
  function EditionsMap(m: map<Id, Edition>, a: Action): map<Id, Edition>
  {
    match a
    case FetchedEditionsSuccess(es) => SetAll(map[], es)
    case CreatedEditionSuccess(e) => m[e.id := e]
    case ToggledEditionPublishedSuccess(e) => m[e.id := e]
    case DeletedEditionSuccess(id) => m - {id}
    case _ => m
  }

  /** Slice `status.isFetchingEditions`. */
  function IsFetchingEditions(b: bool, a: Action): bool
  {
    match a
    case FetchEditions => true
    case FetchedEditionsSuccess(_) => false
    case FetchedEditionsError(_) => false
    case _ => b
  }

  /** Slice `status.createEditionModalViewVisible`. */
  function CreateEditionModalViewVisible(b: bool, a: Action): bool
  {
    match a
    case ShowCreateEditionModalView => true
    case HideCreateEditionModalView => false
    case _ => b
  }

  /** Slice `status.deleteEditionModalViewVisible`. */
  function DeleteEditionModalViewVisible(b: bool, a: Action): bool
  {
    match a
    case ShowDeleteEditionModalView => true
    case HideDeleteEditionModalView => false
    case _ => b
  }

  /** Slice `status.toggleEditionPublishedModalViewVisible`. */
  function ToggleEditionPublishedModalViewVisible(b: bool, a: Action): bool
  {
    match a
    case ShowToggleEditionPublishedModalView => true
    case HideToggleEditionPublishedModalView => false
    case _ => b
  }

  /** Slice `status`: the four flags, combined. */
  function StatusReducer(st: Status, a: Action): Status
  {
    Status(
      IsFetchingEditions(st.isFetchingEditions, a),
      CreateEditionModalViewVisible(st.createEditionModalViewVisible, a),
      DeleteEditionModalViewVisible(st.deleteEditionModalViewVisible, a),
      ToggleEditionPublishedModalViewVisible(st.toggleEditionPublishedModalViewVisible, a))
  }

  /** Slice `errors.fetchEditionsError`. */
  function FetchEditionsError(e: Option<ServerError>, a: Action): Option<ServerError>
  {
    match a
    case FetchedEditionsSuccess(_) => None
    case FetchedEditionsError(err) => Some(err)
    case _ => e
  }

  /** Slice `errors`. */
  function ErrorsReducer(errs: Errors, a: Action): Errors
  {
    Errors(FetchEditionsError(errs.fetchEditionsError, a))
  }

  /** Slice `editionIdsNewestToOldest`, treated as an immutable list throughout. */
  function EditionIdsNewestToOldest(ids: seq<Id>, a: Action): seq<Id>
  {
    match a
    case FetchedEditionsSuccess(es) => IdsOf(es)
    case CreatedEditionSuccess(e) => [e.id] + ids
    case DeletedEditionSuccess(id) => Without(ids, id)
    case _ => ids
  }

  /** Slice `selectedEditionId`. */
  function SelectedEditionId(sel: Option<Id>, a: Action): Option<Id>
  {
    match a
    case SelectEdition(id) => id
    case DeletedEditionSuccess(id) => if sel == Some(id) then None else sel
    case _ => sel
  }

  /** The combined reducer: every slice sees the action. */
  function Reduce(s: State, a: Action): State
  {
    State(
      EditionsMap(s.editions, a),
      EditionIdsNewestToOldest(s.editionIdsNewestToOldest, a),
      ErrorsReducer(s.errors, a),
      StatusReducer(s.status, a),
      SelectedEditionId(s.selectedEditionId, a))
  }

  /** Applies a list of actions in order. */
  function ReduceAll(s: State, acts: seq<Action>): State
    decreases |acts|
  {
    if acts == [] then s else ReduceAll(Reduce(s, acts[0]), acts[1..])
  }

  // ---------------------------------------------------------------------
  // Fetch
  // ---------------------------------------------------------------------

  /**
   * A successful fetch replaces the map and the ordering from the payload:
   * the ordering is the payload's ids in payload order, the map's keys are
   * exactly those ids and each points at the last payload record with its id.
   * The error is cleared, fetching stops, modals and selection are untouched.
   */
  lemma FetchReplacesWholesale(s: State, es: seq<Edition>)
    ensures var t := Reduce(s, FetchedEditionsSuccess(es));
      && |t.editionIdsNewestToOldest| == |es|
      && (forall i :: 0 <= i < |es| ==> t.editionIdsNewestToOldest[i] == es[i].id)
      && t.editions.Keys == Elements(t.editionIdsNewestToOldest)
      && (forall i :: 0 <= i < |es| && (forall j :: i < j < |es| ==> es[j].id != es[i].id) ==>
            es[i].id in t.editions && t.editions[es[i].id] == es[i])
      && t.errors.fetchEditionsError == None
      && !t.status.isFetchingEditions
      && t.status.createEditionModalViewVisible == s.status.createEditionModalViewVisible
      && t.status.deleteEditionModalViewVisible == s.status.deleteEditionModalViewVisible
      && t.status.toggleEditionPublishedModalViewVisible == s.status.toggleEditionPublishedModalViewVisible
      && t.selectedEditionId == s.selectedEditionId
  {
    SetAllKeys(map[], es);
    forall i | 0 <= i < |es| && (forall j :: i < j < |es| ==> es[j].id != es[i].id)
      ensures es[i].id in SetAll(map[], es) && SetAll(map[], es)[es[i].id] == es[i]
    {
      SetAllLastWins(map[], es, i);
    }
  }

  /** No two editions of the list share an id. */
  predicate DistinctIds(es: seq<Edition>)
  {
    forall i, j :: 0 <= i < j < |es| ==> es[i].id != es[j].id
  }

  lemma DistinctIdsNoDuplicates(es: seq<Edition>)
    requires DistinctIds(es)
    ensures NoDuplicates(IdsOf(es))
  {
  }

  /** With distinct payload ids, a fetch stores every payload record under its own id. */
  lemma FetchDistinctStoresEach(s: State, es: seq<Edition>)
    requires DistinctIds(es)
    ensures forall i :: 0 <= i < |es| ==>
      es[i].id in Reduce(s, FetchedEditionsSuccess(es)).editions
      && Reduce(s, FetchedEditionsSuccess(es)).editions[es[i].id] == es[i]
  {
    forall i | 0 <= i < |es|
      ensures es[i].id in SetAll(map[], es) && SetAll(map[], es)[es[i].id] == es[i]
    {
      SetAllLastWins(map[], es, i);
    }
  }

  /** The map and the ordering after a fetch do not depend on the state before it. */
  lemma FetchIgnoresPriorState(s1: State, s2: State, es: seq<Edition>)
    ensures Reduce(s1, FetchedEditionsSuccess(es)).editions == Reduce(s2, FetchedEditionsSuccess(es)).editions
    ensures Reduce(s1, FetchedEditionsSuccess(es)).editionIdsNewestToOldest
         == Reduce(s2, FetchedEditionsSuccess(es)).editionIdsNewestToOldest
  {
  }

  /** Applying the same fetch twice is the same as applying it once. */
  lemma FetchIdempotent(s: State, es: seq<Edition>)
    ensures Reduce(Reduce(s, FetchedEditionsSuccess(es)), FetchedEditionsSuccess(es))
         == Reduce(s, FetchedEditionsSuccess(es))
  {
  }

  /**
   * FETCH_EDITIONS sets the fetching flag and keeps the last error; a failed
   * fetch clears the flag and stores the error, keeping the old editions.
   */
  lemma FetchLifecycle(s: State, err: ServerError)
    ensures Reduce(s, FetchEditions) == s.(status := s.status.(isFetchingEditions := true))
    ensures Reduce(s, FetchedEditionsError(err))
         == s.(status := s.status.(isFetchingEditions := false), errors := Errors(Some(err)))
  {
  }

  // ---------------------------------------------------------------------
  // Create, publish toggle, delete
  // ---------------------------------------------------------------------

  /**
   * A created edition is stored under its id and its id is put in front of
   * the ordering, whose old value becomes the tail; nothing else changes.
   */
  lemma CreatePrepends(s: State, e: Edition)
    ensures var t := Reduce(s, CreatedEditionSuccess(e));
      && |t.editionIdsNewestToOldest| == |s.editionIdsNewestToOldest| + 1
      && t.editionIdsNewestToOldest[0] == e.id
      && t.editionIdsNewestToOldest[1..] == s.editionIdsNewestToOldest
      && t.editions.Keys == s.editions.Keys + {e.id}
      && t.editions[e.id] == e
      && (forall k :: k in s.editions && k != e.id ==> t.editions[k] == s.editions[k])
      && t.errors == s.errors && t.status == s.status && t.selectedEditionId == s.selectedEditionId
  {
    var ids := s.editionIdsNewestToOldest;
    assert ([e.id] + ids)[1..] == ids;
  }

  /** A publish toggle replaces the one record and leaves the ordering alone. */
  lemma ToggleReplacesRecord(s: State, e: Edition)
    ensures var t := Reduce(s, ToggledEditionPublishedSuccess(e));
      && t.editionIdsNewestToOldest == s.editionIdsNewestToOldest
      && t.editions.Keys == s.editions.Keys + {e.id}
      && t.editions[e.id] == e
      && (forall k :: k in s.editions && k != e.id ==> t.editions[k] == s.editions[k])
      && t.errors == s.errors && t.status == s.status && t.selectedEditionId == s.selectedEditionId
  {
  }

  /**
   * A delete removes the key from the map and every occurrence of the id
   * from the ordering; the ids left keep their relative order and their
   * counts.  Flags and errors are untouched.
   */
  lemma DeleteRemoves(s: State, id: Id)
    ensures var t := Reduce(s, DeletedEditionSuccess(id));
      && t.editions.Keys == s.editions.Keys - {id}
      && (forall k :: k in t.editions ==> t.editions[k] == s.editions[k])
      && id !in t.editionIdsNewestToOldest
      && multiset(t.editionIdsNewestToOldest) == multiset(s.editionIdsNewestToOldest)[id := 0]
      && IsSubsequence(t.editionIdsNewestToOldest, s.editionIdsNewestToOldest)
      && t.errors == s.errors && t.status == s.status
  {
    WithoutMultiset(s.editionIdsNewestToOldest, id);
    WithoutIsSubsequence(s.editionIdsNewestToOldest, id);
  }

  /** Repeating a delete changes nothing. */
  lemma {:induction false} DeleteIdempotent(s: State, id: Id)
    ensures Reduce(Reduce(s, DeletedEditionSuccess(id)), DeletedEditionSuccess(id))
         == Reduce(s, DeletedEditionSuccess(id))
  {
    WithoutAbsent(Without(s.editionIdsNewestToOldest, id), id);
  }

  // ---------------------------------------------------------------------
  // Selection
  // ---------------------------------------------------------------------

  /** SELECT_EDITION stores the payload id as it is, present in the map or not. */
  lemma SelectStores(s: State, id: Option<Id>)
    ensures Reduce(s, SelectEdition(id)) == s.(selectedEditionId := id)
  {
  }

  /**
   * A delete clears the selection exactly when it is the deleted id and
   * otherwise keeps it; either way the selection is never the deleted id.
   */
  lemma DeleteResetsSelection(s: State, id: Id)
    ensures var t := Reduce(s, DeletedEditionSuccess(id));
      && (t.selectedEditionId == None <==> (s.selectedEditionId == Some(id) || s.selectedEditionId == None))
      && (s.selectedEditionId != Some(id) ==> t.selectedEditionId == s.selectedEditionId)
      && t.selectedEditionId != Some(id)
  {
  }

  /** Deleting the selected edition does not move the selection to the next-newest edition. */
  lemma DeleteDoesNotReselect()
    ensures var s := Reduce(Initial(), FetchedEditionsSuccess(
              [Edition("A", "Spring", true), Edition("B", "Winter", false), Edition("C", "Fall", true)]));
      var t := Reduce(Reduce(s, SelectEdition(Some("A"))), DeletedEditionSuccess("A"));
      t.editionIdsNewestToOldest == ["B", "C"] && t.selectedEditionId == None
  {
    var es := [Edition("A", "Spring", true), Edition("B", "Winter", false), Edition("C", "Fall", true)];
    assert IdsOf(es) == ["A", "B", "C"];
    assert Without(["A", "B", "C"], "A") == ["B", "C"];
  }

  /** The selection is either absent or a key of the map. */
  predicate SelectionValid(s: State)
  {
    s.selectedEditionId == None || s.selectedEditionId.value in s.editions
  }

  /** SELECT_EDITION of an unknown id leaves a dangling selection: it is not rejected. */
  lemma SelectUnknownIdDangles()
    ensures SelectionValid(Initial())
    ensures !SelectionValid(Reduce(Initial(), SelectEdition(Some("zzz"))))
  {
  }

  /** A fetch that no longer lists the selected id leaves a dangling selection as well. */
  lemma FetchCanLeaveSelectionDangling()
    ensures var s := Reduce(Reduce(Initial(), CreatedEditionSuccess(Edition("A", "Spring", false))),
                            SelectEdition(Some("A")));
      SelectionValid(s) && !SelectionValid(Reduce(s, FetchedEditionsSuccess([])))
  {
  }

  /** The actions after which a valid selection stays valid. */
  predicate KeepsSelectionValid(s: State, a: Action)
  {
    match a
    case SelectEdition(id) => id == None || id.value in s.editions
    case FetchedEditionsSuccess(es) => s.selectedEditionId == None || s.selectedEditionId.value in IdsOf(es)
    case _ => true
  }

  lemma SelectionValidPreserved(s: State, a: Action)
    requires SelectionValid(s) && KeepsSelectionValid(s, a)
    ensures SelectionValid(Reduce(s, a))
  {
    if a.FetchedEditionsSuccess? {
      SetAllKeys(map[], a.editions);
    }
  }

  // ---------------------------------------------------------------------
  // Status flags and unhandled actions
  // ---------------------------------------------------------------------

  /** SHOW/HIDE_CREATE_EDITION_MODAL_VIEW set their own flag and change nothing else. */
  lemma CreateModalVisibility(s: State)
    ensures Reduce(s, ShowCreateEditionModalView) == s.(status := s.status.(createEditionModalViewVisible := true))
    ensures Reduce(s, HideCreateEditionModalView) == s.(status := s.status.(createEditionModalViewVisible := false))
  {
  }

  /** SHOW/HIDE_DELETE_EDITION_MODAL_VIEW set their own flag and change nothing else. */
  lemma DeleteModalVisibility(s: State)
    ensures Reduce(s, ShowDeleteEditionModalView) == s.(status := s.status.(deleteEditionModalViewVisible := true))
    ensures Reduce(s, HideDeleteEditionModalView) == s.(status := s.status.(deleteEditionModalViewVisible := false))
  {
  }

  /** SHOW/HIDE_TOGGLE_EDITION_PUBLISHED_MODAL_VIEW set their own flag and change nothing else. */
  lemma ToggleModalVisibility(s: State)
    ensures Reduce(s, ShowToggleEditionPublishedModalView)
         == s.(status := s.status.(toggleEditionPublishedModalViewVisible := true))
    ensures Reduce(s, HideToggleEditionPublishedModalView)
         == s.(status := s.status.(toggleEditionPublishedModalViewVisible := false))
  {
  }

  /** The actions some slice of this reducer reacts to. */
  predicate HandledByEditions(a: Action)
  {
    || a.FetchEditions? || a.FetchedEditionsSuccess? || a.FetchedEditionsError?
    || a.SelectEdition? || a.CreatedEditionSuccess? || a.DeletedEditionSuccess?
    || a.ToggledEditionPublishedSuccess?
    || a.ShowCreateEditionModalView? || a.HideCreateEditionModalView?
    || a.ShowDeleteEditionModalView? || a.HideDeleteEditionModalView?
    || a.ShowToggleEditionPublishedModalView? || a.HideToggleEditionPublishedModalView?
  }

  /**
   * Each slice keeps its value on an action its switch does not list, and an
   * action no slice lists (login, logout, location changes, CREATE_EDITION,
   * the redirect markers, ...) leaves the whole state unchanged.
   */
  lemma UnhandledActionsChangeNothing(s: State, a: Action)
    ensures !(|| a.FetchedEditionsSuccess? || a.CreatedEditionSuccess? || a.ToggledEditionPublishedSuccess?
              || a.DeletedEditionSuccess?)
            ==> Reduce(s, a).editions == s.editions
    ensures !(a.FetchedEditionsSuccess? || a.CreatedEditionSuccess? || a.DeletedEditionSuccess?)
            ==> Reduce(s, a).editionIdsNewestToOldest == s.editionIdsNewestToOldest
    ensures !(a.FetchedEditionsSuccess? || a.FetchedEditionsError?) ==> Reduce(s, a).errors == s.errors
    ensures !(a.SelectEdition? || a.DeletedEditionSuccess?) ==> Reduce(s, a).selectedEditionId == s.selectedEditionId
    ensures !(a.FetchEditions? || a.FetchedEditionsSuccess? || a.FetchedEditionsError?)
            ==> Reduce(s, a).status.isFetchingEditions == s.status.isFetchingEditions
    ensures !(a.ShowCreateEditionModalView? || a.HideCreateEditionModalView?)
            ==> Reduce(s, a).status.createEditionModalViewVisible == s.status.createEditionModalViewVisible
    ensures !(a.ShowDeleteEditionModalView? || a.HideDeleteEditionModalView?)
            ==> Reduce(s, a).status.deleteEditionModalViewVisible == s.status.deleteEditionModalViewVisible
    ensures !(a.ShowToggleEditionPublishedModalView? || a.HideToggleEditionPublishedModalView?)
            ==> Reduce(s, a).status.toggleEditionPublishedModalViewVisible
                == s.status.toggleEditionPublishedModalViewVisible
    ensures !HandledByEditions(a) ==> Reduce(s, a) == s
  {
  }

  // ---------------------------------------------------------------------
  // The ordering agrees with the map
  // ---------------------------------------------------------------------

  /** The ordering has no duplicates and holds exactly the map's keys. */
  predicate Consistent(s: State)
  {
    NoDuplicates(s.editionIdsNewestToOldest) && Elements(s.editionIdsNewestToOldest) == s.editions.Keys
  }

  /** What an action must satisfy for the agreement to survive it. */
  predicate Admissible(s: State, a: Action)
  {
    match a
    case FetchedEditionsSuccess(es) => DistinctIds(es)
    case CreatedEditionSuccess(e) => e.id !in s.editions
    case ToggledEditionPublishedSuccess(e) => e.id in s.editions
    case _ => true
  }

  lemma InitialConsistent()
    ensures Consistent(Initial())
  {
  }

  lemma ConsistentPreserved(s: State, a: Action)
    requires Consistent(s) && Admissible(s, a)
    ensures Consistent(Reduce(s, a))
  {
    var ids := s.editionIdsNewestToOldest;
    match a
    case FetchedEditionsSuccess(es) =>
      SetAllKeys(map[], es);
      DistinctIdsNoDuplicates(es);
    case CreatedEditionSuccess(e) =>
      var r := [e.id] + ids;
      assert Elements(r) == Elements(ids) + {e.id};
      forall i, j | 0 <= i < j < |r| ensures r[i] != r[j] {
        assert r[j] == ids[j - 1];
        if i > 0 {
          assert r[i] == ids[i - 1];
        }
      }
    case DeletedEditionSuccess(id) =>
      WithoutNoDuplicates(ids, id);
    case _ =>
  }

  /** Every action of an admissible sequence, in the state it meets. */
  predicate AllAdmissible(s: State, acts: seq<Action>)
    decreases |acts|
  {
    acts == [] || (Admissible(s, acts[0]) && AllAdmissible(Reduce(s, acts[0]), acts[1..]))
  }

  lemma {:induction false} ConsistentThroughout(s: State, acts: seq<Action>)
    requires Consistent(s) && AllAdmissible(s, acts)
    ensures Consistent(ReduceAll(s, acts))
    decreases |acts|
  {
    if acts != [] {
      ConsistentPreserved(s, acts[0]);
      ConsistentThroughout(Reduce(s, acts[0]), acts[1..]);
    }
  }

}
