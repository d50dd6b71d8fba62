/**
 * The authentication reducer (src/reducers/authentication.js): one slot
 * holding the logged-in user, or null.  The initial user is read from the
 * session cookie by the server client; here it is a parameter.
 */
module Authentication {
  import opened Wrappers
  import opened Actions

  datatype AuthState = AuthState(user: Option<User>)

  /** The store's starting state, from the user found in the session cookie. */
  function Initial(cookieUser: Option<User>): (s: AuthState)
    ensures s.user == cookieUser
  {
    AuthState(cookieUser)
  }

  /** Slice `user`. */
  function UserReducer(u: Option<User>, a: Action): Option<User>
  {
    match a
    case LoggedInSuccess(user) => Some(user)
    case LoggedOutSuccess => None
    case _ => u
  }

  function Reduce(s: AuthState, a: Action): AuthState
  {
    AuthState(UserReducer(s.user, a))
  }

  /** Applies a list of actions in order. */
  function ReduceAll(s: AuthState, acts: seq<Action>): AuthState
    decreases |acts|
  {
    if acts == [] then s else ReduceAll(Reduce(s, acts[0]), acts[1..])
  }

  lemma LoginSetsUser(s: AuthState, user: User)
    ensures Reduce(s, LoggedInSuccess(user)).user == Some(user)
  {
  }

  lemma LogoutClearsUser(s: AuthState)
    ensures Reduce(s, LoggedOutSuccess).user == None
  {
  }

  /** Every other action, the login and logout errors included, keeps the user. */
  lemma OtherActionsKeepUser(s: AuthState, a: Action)
    requires !a.LoggedInSuccess? && !a.LoggedOutSuccess?
    ensures Reduce(s, a) == s
  {
  }

  /** Once logged out, the user stays null until a successful login. */
  lemma {:induction false} StaysLoggedOut(s: AuthState, acts: seq<Action>)
    requires forall i :: 0 <= i < |acts| ==> !acts[i].LoggedInSuccess?
    ensures ReduceAll(s, [LoggedOutSuccess] + acts).user == None
  {
    assert ([LoggedOutSuccess] + acts)[1..] == acts;
    NoLoginKeepsNull(Reduce(s, LoggedOutSuccess), acts);
  }

  lemma {:induction false} NoLoginKeepsNull(s: AuthState, acts: seq<Action>)
    requires s.user == None
    requires forall i :: 0 <= i < |acts| ==> !acts[i].LoggedInSuccess?
    ensures ReduceAll(s, acts).user == None
    decreases |acts|
  {
    if acts != [] {
      assert !acts[0].LoggedInSuccess?;
      forall i | 0 <= i < |acts[1..]| ensures !acts[1..][i].LoggedInSuccess? {
        assert acts[1..][i] == acts[i + 1];
      }
      NoLoginKeepsNull(Reduce(s, acts[0]), acts[1..]);
    }
  }

}
