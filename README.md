# Request/response core of a minimal HTTP server, in Dafny

This project models two pieces of a small Java HTTP/1.1 server:

- **`dto.HttpResponse`**, the mutable response object. It is a class with a
  status, a header map and a body. Its builder methods (`makeRedirect`,
  `makeBody`, `makeDynamicHtmlBody`, `addHeader`) update those fields in
  place. Its static helpers derive a file's extension and its MIME type from
  a request path.
- **The decision inside `RequestHandler.run`**. A GET for an existing file
  is served statically. An HTML page requested with an `SID` cookie has every
  occurrence of the placeholder `로그인` ("log in") replaced by the session
  user's name. Any other request is dispatched on the route key
  `"<method> <path>"` to a registered handler, and that handler's response is
  sent unchanged. Any exception goes to the error handler. Exactly one
  response is sent, provided the error handler itself returns.

The collaborators are parameters of the model (`Webserver.Env`):

- the file store (`FileManager.getFile`), which returns bytes, returns null, or throws;
- the extension-to-MIME table (`ContentType.getMimeType`);
- the session map (`SessionManager.getUser`; a missing id stands for a null user);
- the route registry (`MethodMapper` plus reflection), a map from route key to a
  function that returns a response or throws;
- the error handler (`ExceptionHandler.process`), a function from the
  exception and the current response to the new response;
- the platform charset (`String.getBytes`, `new String(byte[])`).

Files:

- `base.dfy` (module `Base`): `Option` for Java's nullable references, the
  `byte` type, and the exceptions that reach the error handler.
- `strings.dfy` (module `Strings`): the Java String operations the core uses.
  `lastIndexOf`, `indexOf`, `replace` and `String.valueOf` are each proved
  against a reference definition or an inverse. For `replace`
  that is a split at the target and a join with the replacement. For
  `valueOf` it is a decimal parser. `indexOf` and `replace` follow Java's own
  search, which starts at an index into a fixed string.
- `http_response.dfy` (module `Dto`): the class `HttpResponse` and the path helpers.
- `request_handler.dfy` (module `Webserver`): `Run`, the imperative model of
  `run`. It is proved against `Handle`, a function that gives the one
  response sent. Lemmas about `Handle` state each branch.

## Model

| member | source | states |
|---|---|---|
| Dto.HttpResponse.constructor | src/main/java/dto/HttpResponse.java:16-18 | A new response has no status, no headers and no body. |
| Dto.HttpResponse.AddHeader | src/main/java/dto/HttpResponse.java:41-43 | The header map becomes the old map with `key` bound to `value`. Every other key keeps its value, a repeated key keeps only the last value, and status and body are unchanged. |
| Dto.HttpResponse.MakeRedirect | src/main/java/dto/HttpResponse.java:20-24 | The status becomes REDIRECT and `Location` is set to the URL. The body is unchanged. The same object is returned. |
| Dto.HttpResponse.MakeBody | src/main/java/dto/HttpResponse.java:26-32 | The status is always set. For a found file `f`: the body is `f`, `Content-Type` is the path's MIME type, `Content-Length` is the decimal byte length of `f`, and the length header matches the body. For a null file: the body is null, only `Content-Type` is added, and a NullPointerException is raised. For a read failure: only the status changes, and an IOException is raised. |
| Dto.HttpResponse.MakeDynamicHtmlBody | src/main/java/dto/HttpResponse.java:34-39 | Sets the status, the body to the encoded page, `Content-Type` to `text/html`, and `Content-Length` to the page's length in UTF-16 code units (`String.length()`). The length header matches the body exactly when the encoded body has that many bytes. |
| Dto.HttpResponse.GetStatus | src/main/java/dto/HttpResponse.java:45-47 | Returns the status and changes nothing. |
| Dto.HttpResponse.GetHeaders | src/main/java/dto/HttpResponse.java:49-51 | Returns the header map and changes nothing. |
| Dto.HttpResponse.FromState | src/main/java/webserver/RequestHandler.java:58 | The response object a dynamic handler returns: a new object whose contents are exactly the contents the handler gave it. |
| Dto.HttpResponse.GetContentType | src/main/java/dto/HttpResponse.java:57-60 | The MIME table applied to the path's extension. It has no contract of its own. `ContentTypeOfNamedFile` pins it down. |
| Dto.HttpResponse.GetFileExtension | src/main/java/dto/HttpResponse.java:62-66 | The text after the last '.' of the file name. It has no contract of its own. `FileExtensionIsAfterLastDot` pins it down. |
| Dto.FileName | src/main/java/dto/HttpResponse.java:63-64 | `new File(path).getName()` on a Unix file system. It has no contract of its own. `FileNameIsLastComponent` and `FileNameOfChild` pin it down. |
| Dto.HttpResponse.GetBody | src/main/java/dto/HttpResponse.java:53-55 | Returns the body and changes nothing. |
| Dto.StripTrailingSlashes | src/main/java/dto/HttpResponse.java:63 | The result is a prefix of the path that does not end in '/'. Everything cut off is '/'. |
| Dto.FileNameIsLastComponent | src/main/java/dto/HttpResponse.java:63-64 | The file name is the longest suffix of the path, trailing slashes removed, that holds no '/'. |
| Dto.FileExtensionIsAfterLastDot | src/main/java/dto/HttpResponse.java:62-66 | The extension is a suffix of the file name with no '.' and no '/'. A '.' comes right before it when the name has a '.'. Otherwise it is the whole name. |
| Dto.FileNameOfChild | src/main/java/dto/HttpResponse.java:63-64 | The file name of `dir/name` is `name` when `name` is non-empty and has no '/'. |
| Dto.ContentTypeOfNamedFile | src/main/java/dto/HttpResponse.java:57-60 | A path ending in `/stem.ext` has extension `ext`, and its content type is the MIME table applied to `ext`. |
| Strings.LastIndexOf | src/main/java/dto/HttpResponse.java:65 | The result is -1 exactly when the character is absent. Otherwise it is an index holding that character, with none after it. |
| Strings.LastIndexOfJoin | src/main/java/dto/HttpResponse.java:65 | In `a + [c] + b` with no `c` in `b`, the last `c` is at index `\|a\|`. |
| Strings.Utf16Length | src/main/java/dto/HttpResponse.java:38 | `String.length()`: the number of UTF-16 code units, which lies between the character count and twice that. |
| Strings.Utf16LengthIsCount | src/main/java/dto/HttpResponse.java:38 | The UTF-16 length equals the character count exactly when every character lies in the Basic Multilingual Plane. |
| Strings.DecimalString | src/main/java/dto/HttpResponse.java:31 | `String.valueOf` of a length: a non-empty string of decimal digits with no leading zero. |
| Strings.DecimalRoundTrip | src/main/java/dto/HttpResponse.java:31 | Parsing the decimal string gives back the number. |
| Strings.DecimalInjective | src/main/java/dto/HttpResponse.java:38 | Two lengths have equal decimal strings exactly when they are equal. |
| Strings.IndexOfFrom | src/main/java/webserver/RequestHandler.java:51 | `indexOf(target, from)`: the result is -1, or an index at or after `from` where the target occurs. |
| Strings.IndexOfFromFirst | src/main/java/webserver/RequestHandler.java:51 | No occurrence lies between `from` and the index returned, and none at all from `from` on when -1 is returned: the result is the first occurrence. |
| Strings.IndexOfNoneFree | src/main/java/webserver/RequestHandler.java:51 | `indexOf` returns -1 exactly when the target occurs nowhere in the string. |
| Strings.SplitPiecesFree | src/main/java/webserver/RequestHandler.java:51 | The reference split cuts the string at the leftmost non-overlapping occurrences of the target. No piece contains the target. |
| Strings.SplitJoin | src/main/java/webserver/RequestHandler.java:51 | Joining the pieces with the target gives back the string. |
| Strings.ReplaceAll | src/main/java/webserver/RequestHandler.java:51 | `String.replace` with a non-empty target, as the replace loop run from index 0. It has no contract of its own. `ReplaceAllIsJoin`, `SplitPiecesFree`, `SplitJoin`, `ReplaceAllFree` and `ReplaceAllIdentity` pin it down. |
| Strings.ReplaceAllFree | src/main/java/webserver/RequestHandler.java:51 | A string without the target is unchanged by `replace`. |
| Strings.ReplaceFromIsJoin | src/main/java/webserver/RequestHandler.java:51 | From any index on, the `replace` loop produces the split of the rest of the string at the target, joined with the replacement. |
| Strings.ReplaceAllIsJoin | src/main/java/webserver/RequestHandler.java:51 | `replace` equals the split at the target joined with the replacement: every occurrence is replaced and nothing else changes. |
| Strings.ReplaceFromIdentity | src/main/java/webserver/RequestHandler.java:51 | From any index on, replacing the target by itself gives back the rest of the string. |
| Strings.ReplaceAllIdentity | src/main/java/webserver/RequestHandler.java:51 | Replacing the target by itself changes nothing. |
| Webserver.MethodEndsAtFirstSpace | src/main/java/webserver/RequestHandler.java:56 | In a route key, the method is followed by one space, and the method itself holds no space. |
| Webserver.RouteKeyInjective | src/main/java/webserver/RequestHandler.java:56 | For methods without spaces, two route keys are equal exactly when their methods and their paths are equal. |
| Webserver.ProcessError | src/main/java/webserver/RequestHandler.java:60-62 | The error handler replaces the response object's contents with its verdict on the exception and the current contents. |
| Webserver.Connection.Send | src/main/java/webserver/RequestHandler.java:64 | Sending appends exactly the response's current contents to what the connection has sent. |
| Webserver.Run | src/main/java/webserver/RequestHandler.java:37-64 | Each request sends exactly one response, and that response is `Handle(req, env)`. |
| Webserver.Handle | src/main/java/webserver/RequestHandler.java:39-62 | The response `run` sends, as a function of the request and the collaborators. It has no contract of its own. `Run` is proved to send it, and the branch lemmas below pin it down. |
| Webserver.Dispatch | src/main/java/webserver/RequestHandler.java:44-59 | Chooses the static branch for a GET whose file lookup returns bytes. An IOException is raised when that lookup throws. Every other request takes the dynamic branch. It has no contract of its own. `StaticFileServedAsIs`, `UnreadableFileFails` and `DynamicDispatch` state its cases. |
| Webserver.ServeStatic | src/main/java/webserver/RequestHandler.java:46-51 | `makeBody`, then the placeholder rewrite for an HTML page with an SID cookie. It has no contract of its own. `StaticFileServedAsIs`, `SessionPageRewritten` and `UnknownSessionFails` state its cases. |
| Webserver.ServeDynamic | src/main/java/webserver/RequestHandler.java:55-58 | Looks up the handler under the route key and invokes it with the request body. It has no contract of its own. `DynamicDispatch` states its cases. |
| Webserver.RouteKey | src/main/java/webserver/RequestHandler.java:56 | The route key `method + " " + path`. It has no contract of its own. `MethodEndsAtFirstSpace` and `RouteKeyInjective` pin it down. |
| Webserver.StaticFileServedAsIs | src/main/java/webserver/RequestHandler.java:44-46 | A GET for a found file is sent as the file with OK, its MIME type and its byte length, unless it is HTML and has an SID cookie. The length header matches the body. |
| Webserver.SessionPageRewritten | src/main/java/webserver/RequestHandler.java:47-51 | HTML with an SID cookie of a known session is sent with status OK. The body is the decoded page with every placeholder replaced by the user's name, then encoded. `Content-Length` is the rewritten page's length in UTF-16 code units. It matches the body exactly when the encoded page has that many bytes. |
| Webserver.PageWithoutPlaceholderReencoded | src/main/java/webserver/RequestHandler.java:47-51 | An HTML page without the placeholder, requested with a valid session, is still decoded and re-encoded, and its `Content-Length` becomes its length in UTF-16 code units. |
| Webserver.UnknownSessionFails | src/main/java/webserver/RequestHandler.java:47-62 | An SID naming no user sends the error handler's verdict on a NullPointerException. The handler receives the response already filled by `makeBody`. |
| Webserver.UnreadableFileFails | src/main/java/webserver/RequestHandler.java:44-62 | A GET whose file lookup throws sends the error handler's verdict on an IOException. The handler receives the fresh response. |
| Webserver.DynamicDispatch | src/main/java/webserver/RequestHandler.java:55-62 | A request that is not a GET, or a GET with no file, goes to the handler under `"<method> <path>"`, and the handler's response is sent unchanged. A missing route or a throwing handler sends the error handler's verdict on the fresh response. |

## Left out

- Socket streams, the outer try-with-resources, and the logging through slf4j are I/O plumbing and are not modelled.
- Per-connection threading is not modelled, because `Runnable` adds concurrency, not logic.
- `HttpRequest` parsing is not part of this model. A request is given as its method, path, cookie map and body. `getCookie("SID")` returning null is modelled as the key being absent.
- `ResponseHandler.send` and the wire format are not part of this model. Sending records the response's contents on the connection.
- `FileManager.getFile`, `ContentType.getMimeType`, `SessionManager.getUser`, `MethodMapper.getMethod` and `ExceptionHandler.process` are not part of this model. They are opaque parameters.
- The file store is a fixed function of path and content type. So the lookup in `run`'s condition and the one inside `makeBody` agree, which means a file changing between the two calls is not modelled.
- A MIME lookup that returns null or throws is not modelled: the MIME table is total.
- Which exception `MethodMapper` raises for an unregistered route is not known, so the model names it `RouteNotFound`. A handler that throws becomes `HandlerFailed`.
- Webserver.Run: does not model a dynamic handler that returns null. It also does not keep the identity of the object a handler returns: a new `HttpResponse` with the same contents stands for it.
- Webserver.Run: assumes `ExceptionHandler.process` returns normally. If it throws, the outer catch only logs the exception and no response is sent. That case is not modelled, because the error handler is a total function here.
- Character encoding is abstract: `getBytes` and `new String(byte[])` are an encoder and decoder with no assumed relation.
- A Java string is modelled as its sequence of Unicode characters (Dafny `char`). `String.length()` is `Utf16Length`, which counts a character outside the Basic Multilingual Plane as two code units. Unpaired surrogates, which a Java string can hold but a Dafny `char` cannot, are not modelled.
- Strings.ReplaceAll: covers only a non-empty target. The only call site passes the three-character placeholder.
- Dto.FileName: follows `java.io.File` on a Unix file system only. It drops trailing '/' and takes the text after the last '/'.
- `toString` is debug output and is not modelled.
- `Status` lists only OK and REDIRECT by name, because the other constants of `http.constants.Status` are not part of this model.
