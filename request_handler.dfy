/** The per-connection request handling of the server
    (`webserver.RequestHandler.run`): serve an existing file to a GET,
    putting the session user's name into HTML pages, or else dispatch on
    the route key to a registered handler; any failure goes to the error
    handler, and exactly one response is sent, provided the error handler
    returns. The collaborators (file
    store, MIME table, sessions, handler registry, error handler, charset)
    are parameters. */
module Webserver {
  import opened Base
  import opened Strings
  import opened Dto

  /** The text of a static HTML page that stands for "log in" and is
      replaced by the logged-in user's name. */
  const Placeholder: string := "로그인"

  /** The cookie that carries the session id. */
  const SessionCookie: string := "SID"

  /** The parts of a parsed request that `run` reads. The body is passed
      through to the handler unchanged. */
  datatype Request = Request(
    verb: string,
    path: string,
    cookies: map<string, string>,
    body: string)

  /** A session's user; only the name is read here. */
  datatype User = User(name: string)

  /** What invoking a registered handler does: return a response or throw. */
  datatype HandlerResult = Returned(response: ResponseState) | Threw(reason: string)

  type Handler = string -> HandlerResult

  /** The collaborators of `run`. */
  datatype Env = Env(
    files: FileStore,                                         // FileManager.getFile
    mime: MimeTable,                                          // ContentType.getMimeType
    sessions: map<string, User>,                              // SessionManager.getUser (absent: null)
    routes: map<string, Handler>,                             // MethodMapper and the handlers it finds
    onError: (Exception, ResponseState) -> ResponseState,     // ExceptionHandler.process
    encode: Encoder,                                          // String.getBytes()
    decode: seq<byte> -> string)                              // new String(byte[])

  /** The connection's outgoing side: every response handed to
      `ResponseHandler.send`, in order. */
  class Connection {
    var sent: seq<ResponseState>

    constructor ()
      ensures sent == []
    {
      sent := [];
    }

    method Send(response: HttpResponse)
      modifies this
      ensures sent == old(sent) + [response.State()]
    {
      sent := sent + [response.State()];
    }
  }

  /** The registry key of a dynamic handler: request method, one space, path. */
  function RouteKey(verb: string, path: string): string {
    verb + " " + path
  }

  /** In a route key, the method ends at the first space. */
  lemma MethodEndsAtFirstSpace(verb: string, path: string)
    requires Lacks(verb, ' ')
    ensures var key := RouteKey(verb, path);
      key[|verb|] == ' ' && forall j :: 0 <= j < |verb| ==> key[j] != ' '
  {
    var key := RouteKey(verb, path);
    assert forall j :: 0 <= j < |verb| ==> key[j] == verb[j];
  }

  /** Route keys tell method and path apart when the method has no space. */
  lemma RouteKeyInjective(m1: string, p1: string, m2: string, p2: string)
    requires Lacks(m1, ' ') && Lacks(m2, ' ')
    ensures RouteKey(m1, p1) == RouteKey(m2, p2) <==> m1 == m2 && p1 == p2
  {
    var k1, k2 := RouteKey(m1, p1), RouteKey(m2, p2);
    if k1 == k2 {
      MethodEndsAtFirstSpace(m1, p1);
      MethodEndsAtFirstSpace(m2, p2);
      assert |m1| == |m2|;
      assert m1 == k1[..|m1|] && m2 == k2[..|m2|];
      assert p1 == k1[|m1| + 1..] && p2 == k2[|m2| + 1..];
    }
  }

  /** How the dispatch inside `run` ends: with a response to send, or with
      an exception and the response object as it stood when it was thrown. */
  datatype Outcome = Completed(response: ResponseState) | Raised(error: Exception, partial: ResponseState)

  /** A fresh response after `makeBody(OK, path)` found the file `f`. */
  function StaticResponse(f: seq<byte>, contentType: string): ResponseState {
    ResponseState(Some(OK), map["Content-Type" := contentType, "Content-Length" := DecimalString(|f|)], Some(f))
  }

  /** A static response after `makeDynamicHtmlBody(OK, page)`. */
  function RewrittenResponse(page: string, encode: Encoder): ResponseState {
    ResponseState(Some(OK), map["Content-Type" := "text/html", "Content-Length" := DecimalString(Utf16Length(page))], Some(encode(page)))
  }

  /** Rewriting an HTML page overwrites both headers `makeBody` set. */
  lemma RewriteOverwritesBothHeaders(staticLength: string, pageLength: string)
    ensures map["Content-Type" := "text/html", "Content-Length" := staticLength]["Content-Type" := "text/html"]["Content-Length" := pageLength]
         == map["Content-Type" := "text/html", "Content-Length" := pageLength]
  {
  }

  /** The dispatch inside `run`, as a function of the request and the
      collaborators. */
  function Dispatch(req: Request, env: Env): Outcome {
    if req.verb == "GET" then
      var contentType := HttpResponse.GetContentType(req.path, env.mime);
      match env.files(req.path, contentType)
      case Unreadable => Raised(IOException, Fresh)
      case Found(f) => ServeStatic(req, env, f, contentType)
      case Absent => ServeDynamic(req, env)
    else ServeDynamic(req, env)
  }

  /** Serves the file `f`; an HTML page requested with an SID cookie has
      every placeholder replaced by the session user's name. */
  function ServeStatic(req: Request, env: Env, f: seq<byte>, contentType: string): Outcome {
    var served := StaticResponse(f, contentType);
    if contentType == "text/html" && SessionCookie in req.cookies then
      var sessionId := req.cookies[SessionCookie];
      if sessionId in env.sessions then
        var page := ReplaceAll(env.decode(f), Placeholder, env.sessions[sessionId].name);
        Completed(RewrittenResponse(page, env.encode))
      else
        Raised(NullPointerException, served)
    else Completed(served)
  }

  /** Runs the handler registered under the route key and passes its
      response through. */
  function ServeDynamic(req: Request, env: Env): Outcome {
    var key := RouteKey(req.verb, req.path);
    if key !in env.routes then Raised(RouteNotFound(key), Fresh)
    else match env.routes[key](req.body)
      case Returned(response) => Completed(response)
      case Threw(reason) => Raised(HandlerFailed(reason), Fresh)
  }

  /** The one response `run` sends for the request. */
  function Handle(req: Request, env: Env): ResponseState {
    match Dispatch(req, env)
    case Completed(response) => response
    case Raised(e, partial) => env.onError(e, partial)
  }

  /** `ExceptionHandler.process(e, response)`: the error handler rewrites
      the response object in place. */
  method ProcessError(e: Exception, response: HttpResponse, onError: (Exception, ResponseState) -> ResponseState)
    modifies response
    ensures response.State() == onError(e, old(response.State()))
  {
    var st := onError(e, response.State());
    response.status, response.headers, response.body := st.status, st.headers, st.body;
  }

  /** Handles one request and sends exactly one response, the one `Handle`
      describes. */
  method Run(req: Request, env: Env, conn: Connection)
    modifies conn
    ensures conn.sent == old(conn.sent) + [Handle(req, env)]
  {
    var response := new HttpResponse();
    var thrown: Option<Exception> := None;
    ghost var contentType := HttpResponse.GetContentType(req.path, env.mime);
    ghost var outcome: Outcome;
    var isStatic := false;
    if req.verb == "GET" {
      var lookup := env.files(req.path, HttpResponse.GetContentType(req.path, env.mime));
      if lookup.Unreadable? {
        thrown := Some(IOException);
        outcome := Raised(IOException, Fresh);
      } else {
        isStatic := lookup.Found?;
      }
    }
    if thrown == None {
      if isStatic {
        ghost var f := env.files(req.path, contentType).contents;
        assert Dispatch(req, env) == ServeStatic(req, env, f, contentType);
        thrown := response.MakeBody(OK, req.path, env.files, env.mime);
        assert thrown == None && response.State() == StaticResponse(f, contentType);
        outcome := Completed(response.State());
        var headers := response.GetHeaders();
        if headers["Content-Type"] == "text/html" && SessionCookie in req.cookies {
          var sessionId := req.cookies[SessionCookie];
          var bytes := response.GetBody();
          var htmlPage := env.decode(bytes.value);
          if sessionId in env.sessions {
            var user := env.sessions[sessionId];
            var page := ReplaceAll(htmlPage, Placeholder, user.name);
            response.MakeDynamicHtmlBody(OK, page, env.encode);
            RewriteOverwritesBothHeaders(DecimalString(|f|), DecimalString(Utf16Length(page)));
            assert response.State() == RewrittenResponse(page, env.encode);
            outcome := Completed(response.State());
          } else {
            thrown := Some(NullPointerException);
            outcome := Raised(NullPointerException, response.State());
          }
        }
        assert Dispatch(req, env) == outcome;
      } else {
        assert Dispatch(req, env) == ServeDynamic(req, env);
        var endPoint := RouteKey(req.verb, req.path);
        if endPoint in env.routes {
          var result := env.routes[endPoint](req.body);
          if result.Returned? {
            response := new HttpResponse.FromState(result.response);
            outcome := Completed(response.State());
          } else {
            thrown := Some(HandlerFailed(result.reason));
            outcome := Raised(HandlerFailed(result.reason), Fresh);
          }
        } else {
          thrown := Some(RouteNotFound(endPoint));
          outcome := Raised(RouteNotFound(endPoint), Fresh);
        }
        assert Dispatch(req, env) == outcome;
      }
    }
    assert Dispatch(req, env) == outcome;
    assert outcome == if thrown.Some? then Raised(thrown.value, response.State()) else Completed(response.State());
    if thrown.Some? {
      ProcessError(thrown.value, response, env.onError);
    }
    assert response.State() == Handle(req, env);
    assert conn.sent == old(conn.sent);
    conn.Send(response);
  }

  /** A GET for an existing file that is not an HTML page requested with
      an SID cookie is sent as the file, with its content type and byte
      length. */
  lemma StaticFileServedAsIs(req: Request, env: Env, f: seq<byte>)
    requires req.verb == "GET"
    requires var ct := HttpResponse.GetContentType(req.path, env.mime);
      && env.files(req.path, ct) == Found(f)
      && (ct != "text/html" || SessionCookie !in req.cookies)
    ensures Handle(req, env) == StaticResponse(f, HttpResponse.GetContentType(req.path, env.mime))
    ensures Handle(req, env).body == Some(f) && LengthHeaderMatchesBody(Handle(req, env))
  {
  }

  /** A GET for an existing HTML page with an SID cookie of a known session
      is sent with every leftmost non-overlapping placeholder replaced by
      the user's name, status OK, and Content-Length the page's length in
      UTF-16 code units. */
  lemma SessionPageRewritten(req: Request, env: Env, f: seq<byte>)
    requires req.verb == "GET"
    requires HttpResponse.GetContentType(req.path, env.mime) == "text/html"
    requires env.files(req.path, "text/html") == Found(f)
    requires SessionCookie in req.cookies && req.cookies[SessionCookie] in env.sessions
    ensures var name := env.sessions[req.cookies[SessionCookie]].name;
      var page := Join(Split(env.decode(f), Placeholder), name);
      && Join(Split(env.decode(f), Placeholder), Placeholder) == env.decode(f)
      && Handle(req, env) == RewrittenResponse(page, env.encode)
      && Handle(req, env).status == Some(OK)
      && (LengthHeaderMatchesBody(Handle(req, env)) <==> |env.encode(page)| == Utf16Length(page))
  {
    var name := env.sessions[req.cookies[SessionCookie]].name;
    var page := Join(Split(env.decode(f), Placeholder), name);
    ReplaceAllIsJoin(env.decode(f), Placeholder, name);
    SplitJoin(env.decode(f), Placeholder);
    DecimalInjective(|env.encode(page)|, Utf16Length(page));
  }

  /** Even a page without the placeholder is decoded and re-encoded when
      the request has an SID cookie of a known session, and its
      Content-Length becomes the decoded page's length in UTF-16 code
      units. */
  lemma PageWithoutPlaceholderReencoded(req: Request, env: Env, f: seq<byte>)
    requires req.verb == "GET"
    requires HttpResponse.GetContentType(req.path, env.mime) == "text/html"
    requires env.files(req.path, "text/html") == Found(f)
    requires SessionCookie in req.cookies && req.cookies[SessionCookie] in env.sessions
    requires Free(env.decode(f), Placeholder)
    ensures Handle(req, env) == RewrittenResponse(env.decode(f), env.encode)
  {
    var name := env.sessions[req.cookies[SessionCookie]].name;
    ReplaceAllFree(env.decode(f), Placeholder, name);
  }

  /** An SID cookie naming no session user makes the error handler receive
      the response already filled with the file. */
  lemma UnknownSessionFails(req: Request, env: Env, f: seq<byte>)
    requires req.verb == "GET"
    requires HttpResponse.GetContentType(req.path, env.mime) == "text/html"
    requires env.files(req.path, "text/html") == Found(f)
    requires SessionCookie in req.cookies && req.cookies[SessionCookie] !in env.sessions
    ensures Handle(req, env) == env.onError(NullPointerException, StaticResponse(f, "text/html"))
  {
  }

  /** A GET whose file cannot be read makes the error handler receive the
      fresh response. */
  lemma UnreadableFileFails(req: Request, env: Env)
    requires req.verb == "GET"
    requires env.files(req.path, HttpResponse.GetContentType(req.path, env.mime)) == Unreadable
    ensures Handle(req, env) == env.onError(IOException, Fresh)
  {
  }

  /** Any request other than a GET for an existing or unreadable file goes
      to the handler registered under its route key, whose response is sent
      unchanged; a missing route or a throwing handler makes the error
      handler receive the fresh response. */
  lemma DynamicDispatch(req: Request, env: Env)
    requires req.verb != "GET" || env.files(req.path, HttpResponse.GetContentType(req.path, env.mime)) == Absent
    ensures var key := RouteKey(req.verb, req.path);
      if key !in env.routes then Handle(req, env) == env.onError(RouteNotFound(key), Fresh)
      else match env.routes[key](req.body)
        case Returned(response) => Handle(req, env) == response
        case Threw(reason) => Handle(req, env) == env.onError(HandlerFailed(reason), Fresh)
  {
  }
}
