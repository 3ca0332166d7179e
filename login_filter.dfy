/** LoginFilter.java: the session gate that runs before every request handler. */
module LoginFilter {

  /** SessionKey.SESSION_KEY, the attribute that marks a logged-in session. */
  const SESSION_KEY: string := "SESSION_KEY"

  /** Paths let through without a session. */
  const WHITE_LIST: seq<string> := ["/", "/users/signup", "/users/login"]

  /** HttpServletResponse.SC_UNAUTHORIZED. */
  const SC_UNAUTHORIZED: int := 401

  /** An existing servlet session, seen through the names of its attributes that hold a
      non-null value. */
  datatype HttpSession = HttpSession(attributes: set<string>)

  /** `getSession(false)`: the request's session, or none. */
  datatype Option<T> = None | Some(value: T)

  /** What `doFilter` does: answer with an error status and return, or call
      `chain.doFilter` once. */
  datatype Decision = SendError(status: int) | PassToChain

  /** PatternMatchUtils.simpleMatch(pattern, str), by its documented meaning: `*` matches
      any run of characters, every other character matches itself. */
  function SimpleMatch(pattern: string, str: string): bool
    decreases |pattern| + |str|
  {
    if pattern == [] then str == []
    else if pattern[0] == '*' then SimpleMatch(pattern[1..], str) || (str != [] && SimpleMatch(pattern, str[1..]))
    else str != [] && str[0] == pattern[0] && SimpleMatch(pattern[1..], str[1..])
  }

  /** A pattern without `*` matches exactly the string equal to it. */
  lemma {:induction false} SimpleMatchWithoutStar(pattern: string, str: string)
    requires '*' !in pattern
    ensures SimpleMatch(pattern, str) <==> pattern == str
  {
    if pattern != [] && str != [] {
      SimpleMatchWithoutStar(pattern[1..], str[1..]);
      if pattern[0] == str[0] && pattern[1..] == str[1..] {
        assert pattern == [pattern[0]] + pattern[1..] && str == [str[0]] + str[1..];
      }
    }
  }

  /** `isWhiteList`: simpleMatch against every whitelist pattern. None of them holds `*`, so
      this is exact membership: a path below a whitelisted one is not itself whitelisted. */
  function IsWhiteList(requestUri: string): (b: bool)
    ensures b <==> requestUri in WHITE_LIST
  {
    SimpleMatchWithoutStar(WHITE_LIST[0], requestUri);
    SimpleMatchWithoutStar(WHITE_LIST[1], requestUri);
    SimpleMatchWithoutStar(WHITE_LIST[2], requestUri);
    exists p | p in WHITE_LIST :: SimpleMatch(p, requestUri)
  }

  /** `doFilter`: a whitelisted path always reaches the chain; any other path reaches it
      exactly when a session exists and holds SESSION_KEY, and is otherwise answered with
      401 without calling the chain. The session is only read. */
  function DoFilter(requestUri: string, session: Option<HttpSession>): (d: Decision)
    ensures d == PassToChain <==>
      requestUri in WHITE_LIST || (session.Some? && SESSION_KEY in session.value.attributes)
    ensures d != PassToChain ==> d == SendError(SC_UNAUTHORIZED)
  {
    if !IsWhiteList(requestUri) && (session.None? || SESSION_KEY !in session.value.attributes) then
      SendError(SC_UNAUTHORIZED)
    else
      PassToChain
  }

  /** Examples of the exact matching: the whitelisted signup path passes without a session,
      a path under it does not. */
  lemma WhiteListIsExact()
    ensures DoFilter("/users/signup", None) == PassToChain
    ensures DoFilter("/users/signup/x", None) == SendError(SC_UNAUTHORIZED)
    ensures DoFilter("/schedules", Some(HttpSession({}))) == SendError(SC_UNAUTHORIZED)
  {
  }
}
