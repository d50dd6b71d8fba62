/**
 * The routing reducer (src/reducers/routing.js): holds the location the
 * router reported last, under `locationBeforeTransitions`.
 */
module Routing {
  import opened Wrappers
  import opened Actions

  datatype RoutingState = RoutingState(locationBeforeTransitions: Option<Location>)

  function Initial(): (s: RoutingState)
    ensures s.locationBeforeTransitions == None
  {
    RoutingState(None)
  }

  /** `state.merge({locationBeforeTransitions: payload})` on LOCATION_CHANGE. */
  function Reduce(s: RoutingState, a: Action): RoutingState
  {
    match a
    case LocationChange(location) => s.(locationBeforeTransitions := Some(location))
    case _ => s
  }

  lemma LocationChangeStores(s: RoutingState, location: Location)
    ensures Reduce(s, LocationChange(location)).locationBeforeTransitions == Some(location)
  {
  }

  lemma OtherActionsKeepLocation(s: RoutingState, a: Action)
    requires !a.LocationChange?
    ensures Reduce(s, a) == s
  {
  }

  lemma LocationChangeIdempotent(s: RoutingState, location: Location)
    ensures Reduce(Reduce(s, LocationChange(location)), LocationChange(location))
         == Reduce(s, LocationChange(location))
  {
  }

}
