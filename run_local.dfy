/**
 * The launcher's argument builder (runLocal.js, `apiArgsStringForNames`):
 * picks an App ID and a server URL from the two tables of the server-info
 * configuration file and formats them as environment assignments for the
 * server command line.  The tables are parameters; a name that was not
 * given on the command line is `None`.
 */
module RunLocal {
  import opened Wrappers

  /** A property name as JavaScript coerces it: an absent argument is the key "undefined". */
  function PropertyKey(name: Option<string>): string
  {
    match name
    case Some(n) => n
    case None => "undefined"
  }

  /** Property lookup on a table: a missing key reads as `undefined`. */
  function Lookup(table: map<string, string>, name: Option<string>): Option<string>
  {
    var key := PropertyKey(name);
    if key in table then Some(table[key]) else None
  }

  /** A looked-up string is truthy when it is present and not empty. */
  predicate Truthy(v: Option<string>)
  {
    v.Some? && v.value != ""
  }

  const AppIdPrefix: string := "API_APP_ID=\""
  const UrlInfix: string := "\" API_URL=\""

  function ArgsString(appId: string, serverUrl: string): string
  {
    AppIdPrefix + appId + UrlInfix + serverUrl + "\""
  }

  function ApiArgsStringForNames(appIdTable: map<string, string>, serverUrlTable: map<string, string>,
                                 appIdName: Option<string>, urlName: Option<string>): Option<string>
  {
    var effectiveUrlName := if urlName == None then appIdName else urlName;
    var appId := Lookup(appIdTable, appIdName);
    var serverUrl := Lookup(serverUrlTable, effectiveUrlName);
    if !Truthy(appId) || !Truthy(serverUrl) then None
    else Some(ArgsString(appId.value, serverUrl.value))
  }

  /** An omitted URL name means the App ID name. */
  lemma UrlNameDefaultsToAppIdName(appIdTable: map<string, string>, serverUrlTable: map<string, string>,
                                   appIdName: Option<string>)
    ensures ApiArgsStringForNames(appIdTable, serverUrlTable, appIdName, None)
         == ApiArgsStringForNames(appIdTable, serverUrlTable, appIdName, appIdName)
  {
  }

  /** The result is null when the App ID is missing or empty. */
  lemma NullWithoutAppId(appIdTable: map<string, string>, serverUrlTable: map<string, string>,
                         appIdName: Option<string>, urlName: Option<string>)
    requires PropertyKey(appIdName) !in appIdTable || appIdTable[PropertyKey(appIdName)] == ""
    ensures ApiArgsStringForNames(appIdTable, serverUrlTable, appIdName, urlName) == None
  {
  }

  /** The result is null when the server URL for the effective name is missing or empty. */
  lemma NullWithoutServerUrl(appIdTable: map<string, string>, serverUrlTable: map<string, string>,
                             appIdName: Option<string>, urlName: Option<string>)
    requires var key := PropertyKey(if urlName == None then appIdName else urlName);
      key !in serverUrlTable || serverUrlTable[key] == ""
    ensures ApiArgsStringForNames(appIdTable, serverUrlTable, appIdName, urlName) == None
  {
  }

  /**
   * Otherwise the result is the two assignments, with the App ID looked up
   * under its name and the URL under the effective URL name.
   */
  lemma FormatsBothValues(appIdTable: map<string, string>, serverUrlTable: map<string, string>,
                          appIdName: Option<string>, urlName: Option<string>)
    requires Truthy(Lookup(appIdTable, appIdName))
    requires Truthy(Lookup(serverUrlTable, if urlName == None then appIdName else urlName))
    ensures ApiArgsStringForNames(appIdTable, serverUrlTable, appIdName, urlName)
         == Some("API_APP_ID=\"" + Lookup(appIdTable, appIdName).value + "\" API_URL=\""
                 + Lookup(serverUrlTable, if urlName == None then appIdName else urlName).value + "\"")
  {
  }

  // ---------------------------------------------------------------------
  // Reading the string back
  // ---------------------------------------------------------------------

  /** Splits at the first double quote: the text before it and the text after it. */
  function SplitAtQuote(s: string): (r: Option<(string, string)>)
    ensures r.Some? ==> s == r.value.0 + "\"" + r.value.1 && '"' !in r.value.0
    ensures r.None? ==> '"' !in s
  {
    if s == [] then None
    else if s[0] == '"' then Some(([], s[1..]))
    else match SplitAtQuote(s[1..])
      case None => None
      case Some((before, after)) => Some(([s[0]] + before, after))
  }

  /** Recovers the App ID and the server URL from an argument string. */
  function ParseArgsString(s: string): Option<(string, string)>
  {
    if |s| < |AppIdPrefix| || s[..|AppIdPrefix|] != AppIdPrefix then None
    else match SplitAtQuote(s[|AppIdPrefix|..])
      case None => None
      case Some((appId, rest)) =>
        var infix := UrlInfix[1..];
        if |rest| <= |infix| || rest[..|infix|] != infix || rest[|rest| - 1] != '"' then None
        else Some((appId, rest[|infix|..|rest| - 1]))
  }

  lemma {:induction false} SplitAtQuoteOf(before: string, after: string)
    requires '"' !in before
    ensures SplitAtQuote(before + "\"" + after) == Some((before, after))
  {
    var s := before + "\"" + after;
    if before != [] {
      assert s[0] == before[0] && before[0] != '"';
      assert s[1..] == before[1..] + "\"" + after;
      SplitAtQuoteOf(before[1..], after);
      assert [before[0]] + before[1..] == before;
    } else {
      assert s[0] == '"' && s[1..] == after;
    }
  }

  /**
   * When the App ID has no double quote the argument string determines both
   * values: reading it back gives the App ID and the URL that went in.
   */
  lemma {:induction false} ArgsStringRoundTrip(appId: string, serverUrl: string)
    requires '"' !in appId
    ensures ParseArgsString(ArgsString(appId, serverUrl)) == Some((appId, serverUrl))
  {
    var s := ArgsString(appId, serverUrl);
    var infix := UrlInfix[1..];
    assert s == AppIdPrefix + (appId + "\"" + (infix + serverUrl + "\""));
    assert s[..|AppIdPrefix|] == AppIdPrefix;
    assert s[|AppIdPrefix|..] == appId + "\"" + (infix + serverUrl + "\"");
    SplitAtQuoteOf(appId, infix + serverUrl + "\"");
    var rest := infix + serverUrl + "\"";
    assert rest[..|infix|] == infix;
    assert rest[|infix|..|rest| - 1] == serverUrl;
  }

}
