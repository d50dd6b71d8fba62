# MyMaret editions store, in Dafny

A model of the client-side state of the MyMaret newspaper admin panel: the
Redux reducers that mirror the server's list of newspaper Editions, hold the
logged-in user and the router location, the selector that turns the editions
state into props for the editions view, and the launcher's helper that builds
the environment assignments for the local server.

All of it is pure code in the source: each reducer slice is a `switch` that
returns a new value, meant to be an immutable one (the ordering slice breaks
that after a fetch, as the finding below shows). So the model is datatypes,
functions and lemmas:

- `Actions` — one closed sum type `Action` for every action type the store
  receives, with its payload. The action names that the editions reducer
  imports but `src/constants.js` does not define (CREATED_EDITION_SUCCESS,
  DELETED_EDITION_SUCCESS, TOGGLED_EDITION_PUBLISHED_SUCCESS and the six
  SHOW/HIDE modal actions) are distinct constructors, as the reducer intends.
  `Other` stands for any action type no reducer names (such as Redux's own
  initialisation action); its type string is never one of the named types.
- `Editions` — `src/reducers/editions.js`: one function per slice
  (`EditionsMap`, `EditionIdsNewestToOldest`, `FetchEditionsError`,
  `IsFetchingEditions`, the three modal flags, `SelectedEditionId`), their
  combination `Reduce`, and the properties: wholesale replacement on fetch,
  prepend on create, filter on delete, the selection reset, and the
  invariant that the ordering is duplicate-free and holds exactly the map's
  keys.
- `OrderingAsWritten` — the ordering slice with the JavaScript values it
  actually holds, for the finding below.
- `Authentication` — `src/reducers/authentication.js`; the user read from
  the session cookie at start-up is a parameter of `Initial`.
- `Routing` — `src/reducers/routing.js`.
- `EditionsContainer` — `mapStateToProps` of
  `src/containers/NewspaperEditionsContainerView.js`.
- `RunLocal` — `apiArgsStringForNames` of `runLocal.js`, with the two
  configuration tables as parameters.

In these places the code does something other than what the action names
suggest, and the model follows the code:

- SELECT_EDITION stores any id, present in the map or not
  (`Editions.SelectStores`, `Editions.SelectUnknownIdDangles`).
- Deleting the selected edition sets the selection to null, not to the newest
  remaining edition (`Editions.DeleteDoesNotReselect`).
- FETCH_EDITIONS does not clear the last fetch error
  (`Editions.FetchLifecycle`).
- There are no create or delete error slots and no `isCreating`/`isDeleting`
  flags.
- A fetch that no longer lists the selected id leaves the selection dangling,
  so "the selection is null or a key of the map" holds only under the
  conditions of `Editions.SelectionValidPreserved`.

## Model

| member | source | states |
|---|---|---|
| `Editions.Reduce` | src/reducers/editions.js:149-155 | the combined reducer: every slice sees the action; its behaviour per action is stated by `FetchReplacesWholesale`, `FetchLifecycle`, `CreatePrepends`, `ToggleReplacesRecord`, `DeleteRemoves`, `DeleteResetsSelection`, `SelectStores`, the three modal lemmas and `UnhandledActionsChangeNothing` |
| `Editions.EditionsMap` | src/reducers/editions.js:28-42 | the `editions` slice; stated by `FetchReplacesWholesale`, `CreatePrepends`, `ToggleReplacesRecord`, `DeleteRemoves` and `UnhandledActionsChangeNothing` |
| `Editions.SetAll` | src/reducers/editions.js:31-33 | the fold of `map.set` over the fetched list; stated by `SetAllKeys`, `SetAllUntouched` and `SetAllLastWins` |
| `Editions.IsFetchingEditions` | src/reducers/editions.js:55-65 | the fetching flag; stated by `FetchLifecycle`, `FetchReplacesWholesale` and `UnhandledActionsChangeNothing` |
| `Editions.CreateEditionModalViewVisible` | src/reducers/editions.js:68-77 | the create-modal flag; stated by `CreateModalVisibility` and `UnhandledActionsChangeNothing` |
| `Editions.DeleteEditionModalViewVisible` | src/reducers/editions.js:80-89 | the delete-modal flag; stated by `DeleteModalVisibility` and `UnhandledActionsChangeNothing` |
| `Editions.ToggleEditionPublishedModalViewVisible` | src/reducers/editions.js:92-101 | the publish-modal flag; stated by `ToggleModalVisibility` and `UnhandledActionsChangeNothing` |
| `Editions.StatusReducer` | src/reducers/editions.js:45-52 | the four flags combined; each flag's behaviour is stated by the three modal lemmas and `FetchLifecycle` |
| `Editions.FetchEditionsError` | src/reducers/editions.js:111-120 | the fetch error slot; stated by `FetchReplacesWholesale`, `FetchLifecycle` and `UnhandledActionsChangeNothing` |
| `Editions.ErrorsReducer` | src/reducers/editions.js:104-108 | the one error slot combined; stated through `FetchEditionsError` |
| `Editions.EditionIdsNewestToOldest` | src/reducers/editions.js:123-134 | the ordering slice; stated by `FetchReplacesWholesale`, `CreatePrepends`, `DeleteRemoves`, `DeleteIdempotent` and `ConsistentPreserved` |
| `Editions.SelectedEditionId` | src/reducers/editions.js:137-146 | the selection slice; stated by `SelectStores` and `DeleteResetsSelection` |
| `OrderingAsWritten.EditionIdsAsWritten` | src/reducers/editions.js:123-134 | the ordering slice over the values it really holds; stated by `AsWrittenAgreesExceptCreateAfterFetch` and `CreateAfterFetchYieldsLength` |
| `Authentication.UserReducer` | src/reducers/authentication.js:16-25 | the user slice; stated by `LoginSetsUser`, `LogoutClearsUser`, `OtherActionsKeepUser` and `StaysLoggedOut` |
| `Authentication.Reduce` | src/reducers/authentication.js:27-29 | the combined authentication reducer, stated through `UserReducer` |
| `Routing.Reduce` | src/reducers/routing.js:17-26 | the routing reducer; stated by `LocationChangeStores`, `OtherActionsKeepLocation` and `LocationChangeIdempotent` |
| `EditionsContainer.MapStateToProps` | src/containers/NewspaperEditionsContainerView.js:25-46 | the props selector; stated by `PropsFollowOrdering`, `SelectedIndexIsFirstMatch` and `SelectedIndexUnique` |
| `RunLocal.ApiArgsStringForNames` | runLocal.js:36-45 | the argument builder; stated by `UrlNameDefaultsToAppIdName`, `NullWithoutAppId`, `NullWithoutServerUrl`, `FormatsBothValues` and `ArgsStringRoundTrip` |
| `RunLocal.PropertyKey` | runLocal.js:39-40 | an omitted name is looked up as the key "undefined"; used by the `RunLocal` lemmas above |
| `RunLocal.Lookup` | runLocal.js:39-40 | a table lookup with a missing key read as undefined; used by the `RunLocal` lemmas above |
| `RunLocal.Truthy` | runLocal.js:42 | a looked-up string is truthy when present and non-empty; used by the `RunLocal` lemmas above |
| `Editions.Initial` | src/reducers/editions.js:28-155 | every slice starts empty, null or false |
| `Editions.IdsOf` | src/reducers/editions.js:126 | the ordering built from a fetched list has one entry per edition, entry i being the id of edition i |
| `Editions.Without` | src/reducers/editions.js:130 | the filtered ordering contains exactly the old ids other than the deleted one, and is no longer |
| `Editions.WithoutIsSubsequence` | src/reducers/editions.js:130 | filtering keeps the remaining ids in their relative order |
| `Editions.WithoutMultiset` | src/reducers/editions.js:130 | filtering removes every occurrence of the id and keeps the count of every other id |
| `Editions.WithoutConcat` | src/reducers/editions.js:130 | filtering distributes over concatenation of orderings |
| `Editions.WithoutNoDuplicates` | src/reducers/editions.js:130 | filtering a duplicate-free ordering leaves it duplicate-free |
| `Editions.SetAllKeys` | src/reducers/editions.js:31-33 | the map built by the fold has the accumulator's keys plus the ids of the list |
| `Editions.SetAllLastWins` | src/reducers/editions.js:31-33 | in the folded map an id is bound to the last edition of the list carrying it |
| `Editions.FetchReplacesWholesale` | src/reducers/editions.js:30-33 | after a fetch the ordering is the payload ids in payload order, the map keys are exactly those ids with last-wins records, the error is null, fetching is false, modals and selection are unchanged |
| `Editions.FetchDistinctStoresEach` | src/reducers/editions.js:30-33 | with distinct payload ids every payload record is stored under its own id |
| `Editions.FetchIgnoresPriorState` | src/reducers/editions.js:125-126 | the map and ordering after a fetch are the same whatever the state before it |
| `Editions.FetchIdempotent` | src/reducers/editions.js:30-33 | applying the same fetch twice gives the same state as applying it once |
| `Editions.FetchLifecycle` | src/reducers/editions.js:55-120 | FETCH_EDITIONS sets only the fetching flag, keeping the last error; a failed fetch clears the flag and stores the error, keeping the editions |
| `Editions.CreatePrepends` | src/reducers/editions.js:34-128 | a create binds the new id to its record, keeps the other entries, and puts the id in front of the old ordering, which becomes the tail |
| `Editions.ToggleReplacesRecord` | src/reducers/editions.js:34-36 | a publish toggle rebinds the one id and leaves the ordering and the other entries alone |
| `Editions.DeleteRemoves` | src/reducers/editions.js:37-130 | a delete removes the key from the map, every occurrence from the ordering, keeps the other counts and their relative order |
| `Editions.DeleteIdempotent` | src/reducers/editions.js:129-130 | repeating a delete changes nothing |
| `Editions.SelectStores` | src/reducers/editions.js:139-140 | SELECT_EDITION sets the selection to the payload id and changes nothing else |
| `Editions.DeleteResetsSelection` | src/reducers/editions.js:141-142 | a delete sets the selection to null exactly when it was the deleted id, otherwise keeps it, and never leaves the deleted id selected |
| `Editions.DeleteDoesNotReselect` | src/reducers/editions.js:141-142 | deleting the selected newest of three editions leaves the other two in order and no selection |
| `Editions.SelectUnknownIdDangles` | src/reducers/editions.js:139-140 | selecting an id not in the map is stored, giving a selection that is not a key |
| `Editions.FetchCanLeaveSelectionDangling` | src/reducers/editions.js:30-33 | a fetch that drops the selected id leaves a selection that is not a key |
| `Editions.SelectionValidPreserved` | src/reducers/editions.js:28-42 | a selection that is null or a key stays so, unless an unknown id is selected or a fetch drops the selected id |
| `Editions.CreateModalVisibility` | src/reducers/editions.js:68-77 | SHOW/HIDE_CREATE_EDITION_MODAL_VIEW set their own flag to true/false and nothing else |
| `Editions.DeleteModalVisibility` | src/reducers/editions.js:80-89 | SHOW/HIDE_DELETE_EDITION_MODAL_VIEW set their own flag to true/false and nothing else |
| `Editions.ToggleModalVisibility` | src/reducers/editions.js:92-101 | SHOW/HIDE_TOGGLE_EDITION_PUBLISHED_MODAL_VIEW set their own flag to true/false and nothing else |
| `Editions.UnhandledActionsChangeNothing` | src/reducers/editions.js:28-155 | each slice keeps its value on actions its switch does not list, and an action no slice lists leaves the whole state unchanged |
| `Editions.InitialConsistent` | src/reducers/editions.js:28-155 | the initial ordering and map agree |
| `Editions.ConsistentPreserved` | src/reducers/editions.js:28-42 | a duplicate-free ordering holding exactly the map's keys stays so after a fetch with distinct ids, a create of a fresh id, any delete, a toggle of a present id and every other action |
| `Editions.ConsistentThroughout` | src/reducers/editions.js:123-134 | the agreement holds after any sequence of such actions |
| `OrderingAsWritten.AsWrittenAgreesExceptCreateAfterFetch` | src/reducers/editions.js:123-134 | with its real JavaScript values the ordering slice agrees with the corrected one except for a create that meets a plain array |
| `OrderingAsWritten.CreateAfterFetchYieldsLength` | src/reducers/editions.js:125-128 | a fetch of one edition followed by a create leaves the number 2 as ordering, where the corrected slice gives both ids newest first |
| `Authentication.Initial` | src/reducers/authentication.js:16 | the initial user is the one read from the session cookie |
| `Authentication.LoginSetsUser` | src/reducers/authentication.js:18-19 | LOGGED_IN_SUCCESS sets the user to the payload's user |
| `Authentication.LogoutClearsUser` | src/reducers/authentication.js:20-21 | LOGGED_OUT_SUCCESS sets the user to null |
| `Authentication.OtherActionsKeepUser` | src/reducers/authentication.js:22-23 | every other action, login and logout errors included, leaves the state unchanged |
| `Authentication.StaysLoggedOut` | src/reducers/authentication.js:16-25 | after LOGGED_OUT_SUCCESS the user stays null through any actions without a LOGGED_IN_SUCCESS |
| `Routing.Initial` | src/reducers/routing.js:13-15 | the initial location is null |
| `Routing.LocationChangeStores` | src/reducers/routing.js:19-22 | LOCATION_CHANGE sets the location to the payload |
| `Routing.OtherActionsKeepLocation` | src/reducers/routing.js:23-24 | any other action leaves the routing state unchanged |
| `Routing.LocationChangeIdempotent` | src/reducers/routing.js:19-22 | the same LOCATION_CHANGE twice gives the same state as once |
| `EditionsContainer.InfoList` | src/containers/NewspaperEditionsContainerView.js:27-34 | one info record per ordering id, in order, with name and published flag from the map's record; requires every id to be a key |
| `EditionsContainer.FindIndex` | src/containers/NewspaperEditionsContainerView.js:40-43 | -1 exactly when no entry has the selected id (a null selection matches none); otherwise the first entry with it |
| `EditionsContainer.PropsFollowOrdering` | src/containers/NewspaperEditionsContainerView.js:25-37 | the props' info list follows the ordering entry by entry and the fetch flags pass through unchanged |
| `EditionsContainer.SelectedIndexIsFirstMatch` | src/containers/NewspaperEditionsContainerView.js:40-43 | the selected index is -1 exactly when the selection is not in the ordering, else the first position holding it |
| `EditionsContainer.ConsistentStoreIsRenderable` | src/containers/NewspaperEditionsContainerView.js:30-32 | an editions state whose ordering and map agree meets the selector's requirement |
| `EditionsContainer.SelectedIndexUnique` | src/containers/NewspaperEditionsContainerView.js:40-43 | over an agreeing editions state no other position holds the selected id |
| `RunLocal.UrlNameDefaultsToAppIdName` | runLocal.js:37 | an omitted URL name gives the same result as passing the App ID name |
| `RunLocal.NullWithoutAppId` | runLocal.js:39-42 | the result is null when the App ID is missing or empty |
| `RunLocal.NullWithoutServerUrl` | runLocal.js:40-42 | the result is null when the server URL under the effective name is missing or empty |
| `RunLocal.FormatsBothValues` | runLocal.js:37-44 | when both lookups are truthy the result is `API_APP_ID="<appId>" API_URL="<serverURL>"`, the App ID looked up under its name and the URL under the effective URL name, for given and omitted names alike |
| `RunLocal.SplitAtQuote` | runLocal.js:44 | splits at the first double quote, the part before holding none |
| `RunLocal.ArgsStringRoundTrip` | runLocal.js:44 | when the App ID holds no double quote, the string reads back as the App ID and URL that went in |

## Left out

- The React components, their event handlers, modals, debounce timers and promise-driven local state: view code.
- The action creators and thunks in `src/actions/`: server queries, history pushes and dispatch sequencing are network I/O and asynchrony; only the plain action shapes are modelled, in `Actions.Action`.
- The server client wrappers (`src/serverAPI.js`, `src/ParseWrapper.js`): foreign calls; the user read from the session cookie becomes the parameter of `Authentication.Initial`.
- `server.js`, `index.js`, `src/index.js`, `src/config.js`, `src/constants.js` and `src/reducers/index.js`: framework wiring, configuration and the string values of the action types; the root reducer is a plain product of the three modelled reducers.
- The top level of `runLocal.js`: reading the configuration file and running the build and server commands is I/O.
- Action-type strings: the model keeps only their distinct kinds, so the accident that nine of the editions reducer's action names are undefined (and would all match an action whose type is undefined) is not reproduced.
- Edition records keep only `id`, `editionName` and `isPublished`; in the app they are server objects read with `get`.
- EditionsContainer.MapStateToProps: reads the fields the selector evidently intends, from a plain record. As written the selector cannot run: the store it is connected to is built in `src/index.js` as a plain Redux root over the namespace of `src/reducers/index.js`, and that module builds an Immutable.js root, so either way `state.editionsInfo` is undefined and reading `editionIdsNewestToOldest` from it throws a TypeError on every call. Also `isFetching` and `hasFetched` are names the editions reducer does not produce (it has `status.isFetchingEditions`); the model passes through whatever those fields hold (`None` for absent).
- RunLocal.ApiArgsStringForNames: table values are strings, so "falsy" is missing or empty; other JSON values (numbers, booleans, null) and keys inherited from the object prototype are not modelled, and a missing `appId` or `serverURL` table (which would throw) is not modelled.
- Routing.Reduce: Immutable.js `merge` is modelled as replacing the one field; its conversion of the payload to an Immutable.js value is not modelled.

## Findings

| source | as written | input that shows it | evidently intended | confidence | as-written member | corrected member |
|---|---|---|---|---|---|---|
| src/reducers/editions.js:125-128 | a fetch stores `payload.editions.map(...)`, a plain array (the server query resolves to one), and a later create calls the array's `unshift`, which returns the new length | FETCHED_EDITIONS_SUCCESS with one edition `e1`, then CREATED_EDITION_SUCCESS of `e2`: the ordering becomes the number 2 | the ordering becomes `["e2", "e1"]` (an immutable list throughout) | not executed; high for the value types, though the create action is not yet dispatched anywhere in this version | `OrderingAsWritten.CreateAfterFetchYieldsLength` | `Editions.CreatePrepends` |
