/**
 * The `editionIdsNewestToOldest` slice of src/reducers/editions.js with the
 * JavaScript values it really holds.  The slot starts as an Immutable.js
 * List, but a successful fetch stores `payload.editions.map(...)`, and
 * `payload.editions` is the plain array the server query resolves to, so
 * from then on the slot holds a plain array.  A later create calls
 * `Array.prototype.unshift` on it, which returns the new LENGTH, and that
 * number becomes the ordering.
 *
 * `Editions.EditionIdsNewestToOldest` is the corrected slice (an immutable
 * list throughout), the one the rest of the model uses.
 */
module OrderingAsWritten {
  import opened Actions
  import Editions

  /** The value in the ordering slot. */
  datatype JsValue =
    | ImmutableList(items: seq<Id>)
    | JsArray(items: seq<Id>)
    | JsNumber(n: int)

  /** A reducer step either returns a value or throws. */
  datatype Outcome = Value(v: JsValue) | TypeError

  /** The ordering slice over the values it really holds; a list method called on a number throws. */
  function EditionIdsAsWritten(state: JsValue, a: Action): Outcome
  {
    match a
    case FetchedEditionsSuccess(es) => Value(JsArray(Editions.IdsOf(es)))
    case CreatedEditionSuccess(e) =>
      (match state
       case ImmutableList(items) => Value(ImmutableList([e.id] + items))
       case JsArray(items) => Value(JsNumber(|items| + 1))
       case JsNumber(_) => TypeError)
    case DeletedEditionSuccess(id) =>
      (match state
       case ImmutableList(items) => Value(ImmutableList(Editions.Without(items, id)))
       case JsArray(items) => Value(JsArray(Editions.Without(items, id)))
       case JsNumber(_) => TypeError)
    case _ => Value(state)
  }

  /**
   * As written, the slice agrees with the corrected one on every step except
   * a create that meets a plain array, that is, a create after a fetch.
   */
  lemma AsWrittenAgreesExceptCreateAfterFetch(state: JsValue, a: Action)
    requires !state.JsNumber?
    requires !(a.CreatedEditionSuccess? && state.JsArray?)
    ensures var out := EditionIdsAsWritten(state, a);
      out.Value? && !out.v.JsNumber?
      && out.v.items == Editions.EditionIdsNewestToOldest(state.items, a)
  {
  }

  /** Fetching one edition and then creating another leaves the number 2 as the ordering. */
  lemma CreateAfterFetchYieldsLength()
    ensures var e1 := Edition("e1", "Spring", true);
      var e2 := Edition("e2", "Summer", false);
      var afterFetch := EditionIdsAsWritten(ImmutableList([]), FetchedEditionsSuccess([e1]));
      && afterFetch == Value(JsArray(["e1"]))
      && EditionIdsAsWritten(afterFetch.v, CreatedEditionSuccess(e2)) == Value(JsNumber(2))
      && Editions.EditionIdsNewestToOldest(
           Editions.EditionIdsNewestToOldest([], FetchedEditionsSuccess([e1])), CreatedEditionSuccess(e2))
         == ["e2", "e1"]
  {
    assert Editions.IdsOf([Edition("e1", "Spring", true)]) == ["e1"];
  }

}
