/** The mutable response object of the server (`dto.HttpResponse`) and the
    collaborators it consults: the file store and the extension-to-MIME
    table, both given as parameters. */
module Dto {
  import opened Base
  import opened Strings

  /** Constants of `http.constants.Status`; the core itself only ever sets
      OK and REDIRECT, the rest come from handlers and the error handler. */
  datatype Status = OK | REDIRECT | OtherStatus(name: string)

  /** Everything a response object holds at one moment: what is sent. */
  datatype ResponseState = ResponseState(
    status: Option<Status>,
    headers: map<string, string>,
    body: Option<seq<byte>>)

  /** A response as `new HttpResponse()` leaves it: no status, no headers,
      no body. */
  const Fresh := ResponseState(None, map[], None)

  /** What `FileManager.getFile(path, contentType)` does: returns the bytes,
      returns null, or throws an IOException. */
  datatype FileLookup = Found(contents: seq<byte>) | Absent | Unreadable

  /** `FileManager.getFile`, as a fixed function of its two arguments. */
  type FileStore = (string, string) -> FileLookup

  /** `ContentType.getMimeType`: file extension to MIME type. */
  type MimeTable = string -> string

  /** `String.getBytes()` in the platform charset. */
  type Encoder = string -> seq<byte>

  /** The response carries a body and a Content-Length header giving the
      body's length in bytes. */
  ghost predicate LengthHeaderMatchesBody(st: ResponseState) {
    && st.body.Some?
    && "Content-Length" in st.headers
    && st.headers["Content-Length"] == DecimalString(|st.body.value|)
  }

  /** `java.io.File` normalisation on a Unix file system drops trailing
      separators. */
  function StripTrailingSlashes(path: string): (r: string)
    ensures |r| <= |path| && r == path[..|r|]
    ensures |r| == 0 || r[|r| - 1] != '/'
    ensures forall j :: |r| <= j < |path| ==> path[j] == '/'
  {
    if |path| > 0 && path[|path| - 1] == '/' then StripTrailingSlashes(path[..|path| - 1])
    else path
  }

  /** `new File(path).getName()`: the last component of the normalised
      path, the text after its last '/'. */
  function FileName(path: string): string {
    AfterLast(StripTrailingSlashes(path), '/')
  }

  /** The file name is the longest suffix of the path, trailing slashes
      removed, that holds no '/'. */
  lemma FileNameIsLastComponent(path: string)
    ensures var q, name := StripTrailingSlashes(path), FileName(path);
      && Lacks(name, '/')
      && |name| <= |q| && name == q[|q| - |name|..]
      && (|name| < |q| ==> q[|q| - |name| - 1] == '/')
  {
    AfterLastIsSuffix(StripTrailingSlashes(path), '/');
  }

  class HttpResponse {
    var status: Option<Status>
    var headers: map<string, string>
    var body: Option<seq<byte>>

    /** The response's current contents as a value. */
    function State(): ResponseState
      reads this
    {
      ResponseState(status, headers, body)
    }

    constructor ()
      ensures State() == Fresh
    {
      status, headers, body := None, map[], None;
    }

    /** The response object a dynamic handler returns, built with the
        contents the handler gave it. */
    constructor FromState(st: ResponseState)
      ensures State() == st
    {
      status, headers, body := st.status, st.headers, st.body;
    }

    /** Writes one header; a key already present keeps only the new value. */
    method AddHeader(key: string, value: string)
      modifies this
      ensures headers == old(headers)[key := value]
      ensures status == old(status) && body == old(body)
    {
      headers := headers[key := value];
    }

    /** Turns the response into a redirect to `redirectUrl` and returns
        the same object. */
    method MakeRedirect(redirectUrl: string) returns (self: HttpResponse)
      modifies this
      ensures self == this
      ensures status == Some(REDIRECT)
      ensures headers == old(headers)["Location" := redirectUrl]
      ensures body == old(body)
    {
      status := Some(REDIRECT);
      AddHeader("Location", redirectUrl);
      self := this;
    }

    /** Fills the response with the static file at `path`. The status is
        set first; a read failure then leaves body and headers alone, and a
        null file leaves no body but a Content-Type header before the
        null dereference in taking its length. */
    method MakeBody(s: Status, path: string, files: FileStore, mime: MimeTable)
      returns (thrown: Option<Exception>)
      modifies this
      ensures status == Some(s)
      ensures var ct := GetContentType(path, mime);
        match files(path, ct)
        case Found(f) =>
          && thrown == None && body == Some(f)
          && headers == old(headers)["Content-Type" := ct]["Content-Length" := DecimalString(|f|)]
          && LengthHeaderMatchesBody(State())
        case Absent =>
          && thrown == Some(NullPointerException) && body == None
          && headers == old(headers)["Content-Type" := ct]
        case Unreadable =>
          && thrown == Some(IOException) && body == old(body) && headers == old(headers)
    {
      var contentType := GetContentType(path, mime);
      status := Some(s);
      match files(path, contentType)
      case Unreadable =>
        thrown := Some(IOException);
      case Absent =>
        body := None;
        AddHeader("Content-Type", contentType);
        thrown := Some(NullPointerException);
      case Found(f) =>
        body := Some(f);
        AddHeader("Content-Type", contentType);
        AddHeader("Content-Length", DecimalString(|f|));
        thrown := None;
    }

    /** Fills the response with a generated HTML page. Content-Length is
        the page's length in UTF-16 code units, not the length of the
        encoded body, so the header agrees with the body exactly when the
        encoding yields one byte per code unit. */
    method MakeDynamicHtmlBody(s: Status, html: string, encode: Encoder)
      modifies this
      ensures status == Some(s)
      ensures body == Some(encode(html))
      ensures headers == old(headers)["Content-Type" := "text/html"]["Content-Length" := DecimalString(Utf16Length(html))]
      ensures LengthHeaderMatchesBody(State()) <==> |encode(html)| == Utf16Length(html)
    {
      status := Some(s);
      body := Some(encode(html));
      headers := headers["Content-Type" := "text/html"];
      headers := headers["Content-Length" := DecimalString(Utf16Length(html))];
      DecimalInjective(|encode(html)|, Utf16Length(html));
    }

    method GetStatus() returns (s: Option<Status>)
      ensures s == status
    {
      s := status;
    }

    /** The headers. Java hands out a live read-only view; a copy of the
        map is the same here, because `run` reads it at once. */
    method GetHeaders() returns (h: map<string, string>)
      ensures h == headers
    {
      h := headers;
    }

    method GetBody() returns (b: Option<seq<byte>>)
      ensures b == body
    {
      b := body;
    }

    /** The MIME type of the file at `path`, looked up by its extension. */
    static function GetContentType(path: string, mime: MimeTable): string {
      mime(GetFileExtension(path))
    }

    /** The text after the last '.' of the path's file name, or the whole
        file name when it has no '.'. */
    static function GetFileExtension(path: string): string {
      AfterLast(FileName(path), '.')
    }
  }

  /** The extension is the suffix of the file name after its last '.':
      it holds no '.' and no '/', and is the whole name when there is no
      '.'. */
  lemma FileExtensionIsAfterLastDot(path: string)
    ensures var name, ext := FileName(path), HttpResponse.GetFileExtension(path);
      && Lacks(ext, '.') && Lacks(ext, '/')
      && |ext| <= |name| && ext == name[|name| - |ext|..]
      && if Lacks(name, '.') then ext == name else name[|name| - |ext| - 1] == '.'
  {
    var name := FileName(path);
    FileNameIsLastComponent(path);
    AfterLastIsSuffix(name, '.');
    var ext := AfterLast(name, '.');
    LacksSuffix(name, |name| - |ext|, '/');
  }

  /** The file name of `dir/name` is `name` when `name` holds no '/' and
      does not end the path with one. */
  lemma FileNameOfChild(dir: string, name: string)
    requires |name| > 0 && Lacks(name, '/')
    ensures FileName(dir + "/" + name) == name
  {
    var path := dir + "/" + name;
    assert path[|path| - 1] == name[|name| - 1];
    assert StripTrailingSlashes(path) == path;
    LastIndexOfJoin(dir, '/', name);
    assert path[|dir| + 1..] == name;
    assert FileName(path) == AfterLast(path, '/');
  }

  /** A path ending in `/stem.ext` has extension `ext` and the content type
      the MIME table gives `ext`. */
  lemma ContentTypeOfNamedFile(dir: string, stem: string, ext: string, mime: MimeTable)
    requires Lacks(stem, '/') && Lacks(ext, '/') && Lacks(ext, '.')
    ensures HttpResponse.GetFileExtension(dir + "/" + stem + "." + ext) == ext
    ensures HttpResponse.GetContentType(dir + "/" + stem + "." + ext, mime) == mime(ext)
  {
    var name := stem + "." + ext;
    assert dir + "/" + stem + "." + ext == dir + "/" + name;
    FileNameOfChild(dir, name);
    LastIndexOfJoin(stem, '.', ext);
    assert name[|stem| + 1..] == ext;
  }
}
