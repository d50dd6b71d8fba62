/**
 * The plain action objects that the application dispatches into its Redux
 * store, and the records they carry.  Every reducer of the store receives
 * every action, so one closed sum type stands for all `action.type` strings
 * (src/constants.js, plus LOCATION_CHANGE from the router bindings).
 */
module Actions {
  import opened Wrappers

  /** A server-assigned object id of an Edition. */
  type Id = string

  /** The fields of a server Edition object that the reducers and views read. */
  datatype Edition = Edition(id: Id, editionName: string, isPublished: bool)

  /** A server error object as delivered in the payload of an `*_ERROR` action. */
  datatype ServerError = ServerError(code: int, message: string)

  /** The server user object of a logged-in user. */
  datatype User = User(objectId: string, username: string)

  /** A browser location as delivered by the router's LOCATION_CHANGE action. */
  datatype Location = Location(pathname: string, search: string, hash: string)

  datatype Action =
    // authentication
    | LoggedInSuccess(user: User)
    | LoggedInError(loginError: ServerError)
    | LoggedOutSuccess
    | LoggedOutError(logoutError: ServerError)
    // fetching editions
    | FetchEditions
    | FetchedEditionsSuccess(editions: seq<Edition>)
    | FetchedEditionsError(fetchError: ServerError)
    // redirect bookkeeping for /editions
    | EditionsIndexRedirectTrue
    | EditionsIndexRedirectFalse
    // selecting, creating, deleting and publishing editions
    | SelectEdition(selectId: Option<Id>)
    | CreateEdition
    | CreatedEditionSuccess(created: Edition)
    | DeletedEditionSuccess(deletedId: Id)
    | ToggledEditionPublishedSuccess(toggled: Edition)
    // modal visibility
    | ShowCreateEditionModalView
    | HideCreateEditionModalView
    | ShowDeleteEditionModalView
    | HideDeleteEditionModalView
    | ShowToggleEditionPublishedModalView
    | HideToggleEditionPublishedModalView
    // router
    | LocationChange(location: Location)
    // any other action type, such as Redux's own initialisation action; its
    // type string is never one of the action types named above
    | Other(actionType: string)

}
