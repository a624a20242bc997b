/**
 * The response helpers of the service: the error responses it sends, the
 * middleware that turns away a request whose method is not allowed or
 * whose `Accept` cannot be met, and `removePrefix`, which cleans up an
 * error message. The Express response is a class whose status, headers and
 * body the helpers set; content negotiation is reduced to the format the
 * request has already been matched to.
 */
module Responses {
  import opened Wrappers
  import opened Strings
  import opened Js

  /** The branch of `res.format` that content negotiation picks for a request. */
  datatype Format = JsonFormat | HtmlFormat | TextFormat | OtherFormat

  /** What has been sent as the body of a response. */
  datatype Body =
    | JsonBody(value: Value)           // `res.json(value)`
    | TypedBody(kind: string, text: string) // `res.type(kind); res.send(text)`
    | StatusBody(code: int)            // `res.sendStatus(code)`
    | Sent(text: string)               // `res.send(text)`

  /** What a middleware did with a request. */
  datatype Gate = Next | Responded | Threw(message: string)

  /** An Express response: its status, its headers and its body, as far as they have been set. */
  class Response {
    var status: Option<Value>
    var headers: map<string, string>
    var body: Option<Body>

    constructor()
      ensures status == None && headers == map[] && body == None
    {
      status := None;
      headers := map[];
      body := None;
    }

    /** `res.set(name, value)`. */
    method Set(name: string, value: string)
      modifies this
      ensures headers == old(headers)[name := value]
      ensures status == old(status) && body == old(body)
    {
      headers := headers[name := value];
    }
  }

  /** `code + ' ' + message`, the text of an HTML or plain-text error page. */
  function CodeText(code: int, message: string): (t: string)
    ensures |t| > |message| + 1
    ensures t[|t| - |message|..] == message && t[|t| - |message| - 1] == ' '
    ensures t[..|t| - |message| - 1] == IntToText(code)
  {
    IntToText(code) + " " + message
  }

  /** `_.assign({ message, code }, extras)`: the JSON error body; `extras` wins on a clash. */
  function JsonError(code: int, message: string, extras: Data): (v: Value)
    ensures v.Obj? && v.fields.Keys == {"message", "code"} + extras.Keys
    ensures "message" !in extras ==> v.fields["message"] == Str(message)
    ensures "code" !in extras ==> v.fields["code"] == Num(code)
    ensures forall k :: k in extras ==> v.fields[k] == extras[k]
  {
    Obj(map["message" := Str(message), "code" := Num(code)] + extras)
  }

  /** The body `sendDefaultResponseForCode` sends in each format. */
  function ErrorBody(code: int, message: string, format: Format, extras: Data): (b: Body)
    ensures format == JsonFormat <==> b.JsonBody?
    ensures format == OtherFormat <==> b == StatusBody(code)
    ensures format == JsonFormat ==> b == JsonBody(JsonError(code, message, extras))
    ensures format == HtmlFormat ==> b == TypedBody("html", CodeText(code, message))
    ensures format == TextFormat ==> b == TypedBody("text", CodeText(code, message))
  {
    match format
    case JsonFormat => JsonBody(JsonError(code, message, extras))
    case HtmlFormat => TypedBody("html", CodeText(code, message))
    case TextFormat => TypedBody("text", CodeText(code, message))
    case OtherFormat => StatusBody(code)
  }

  /** `sendDefaultResponseForCode(code, message, res, extras)`: sets the status and sends the error in the negotiated format. */
  method SendDefaultResponseForCode(code: int, message: string, res: Response, format: Format, extras: Data)
    modifies res
    ensures res.status == Some(Num(code))
    ensures res.body == Some(ErrorBody(code, message, format, extras))
    ensures res.headers == old(res.headers)
  {
    res.status := Some(Num(code));
    res.body := Some(ErrorBody(code, message, format, extras));
  }

  /** `{ allow }` or `{ accept }`, the options a gate was built with, as the JSON body repeats them. */
  function ListOption(name: string, items: seq<string>): (d: Data)
    ensures d.Keys == {name}
  {
    map[name := Arr(seq(|items|, i requires 0 <= i < |items| => Str(items[i])))]
  }

  /** `methodNotAllowed({ allow })`: the message of its 405 response. */
  function NotAllowedMessage(verb: string): string {
    "Method " + verb + " not allowed"
  }

  /**
   * `methodNotAllowed({ allow })` applied to a request: passes it on when
   * its lower-cased method is allowed; otherwise sets `Allow` to the upper-
   * cased list and responds 405.
   */
  method MethodNotAllowed(allow: seq<string>, verb: string, format: Format, res: Response) returns (g: Gate)
    modifies res
    ensures g == Next <==> ToLower(verb) in allow
    ensures g != Next ==> g == Responded
    ensures g == Next ==> res.status == old(res.status) && res.headers == old(res.headers) && res.body == old(res.body)
    ensures g == Responded ==>
      && res.status == Some(Num(405))
      && res.headers == old(res.headers)["Allow" := ToUpper(Join(allow, ", "))]
      && res.body == Some(ErrorBody(405, NotAllowedMessage(verb), format, ListOption("allow", allow)))
  {
    if ToLower(verb) in allow {
      return Next;
    }
    res.Set("Allow", ToUpper(Join(allow, ", ")));
    SendDefaultResponseForCode(405, NotAllowedMessage(verb), res, format, ListOption("allow", allow));
    return Responded;
  }

  /** `notAcceptable({ accept })`: the message of its 406 response, from the request's `Accept` header. */
  function NotAcceptableMessage(acceptHeader: Value): string {
    ToText(acceptHeader) + " not acceptable"
  }

  /**
   * `notAcceptable({ accept })` applied to a request: passes it on when
   * `req.accepts(accept)` finds a type; otherwise sets `Accept` to the
   * lower-cased list and responds 406.
   */
  method NotAcceptable(accept: seq<string>, matched: bool, acceptHeader: Value, format: Format, res: Response)
    returns (g: Gate)
    modifies res
    ensures g == Next <==> matched
    ensures g != Next ==> g == Responded
    ensures g == Next ==> res.status == old(res.status) && res.headers == old(res.headers) && res.body == old(res.body)
    ensures g == Responded ==>
      && res.status == Some(Num(406))
      && res.headers == old(res.headers)["Accept" := ToLower(Join(accept, ", "))]
      && res.body == Some(ErrorBody(406, NotAcceptableMessage(acceptHeader), format, ListOption("accept", accept)))
  {
    if matched {
      return Next;
    }
    res.Set("Accept", ToLower(Join(accept, ", ")));
    SendDefaultResponseForCode(406, NotAcceptableMessage(acceptHeader), res, format, ListOption("accept", accept));
    return Responded;
  }

  /** `removePrefix(str, token)`: the text after the first `token`, trimmed; `str` itself when there is no `token`. */
  function RemovePrefix(str: string, token: string): (r: string)
    ensures IndexOf(str, token).None? ==> r == str
    ensures IndexOf(str, token).Some? ==> |r| <= |str| - IndexOf(str, token).value - |token|
  {
    match IndexOf(str, token)
    case None => str
    case Some(i) => Trim(str[i + |token|..])
  }

  /**
   * After the first `token`, `removePrefix` keeps exactly the text left
   * once the white space at both ends is dropped.
   */
  lemma RemovePrefixCut(str: string, token: string)
    requires IndexOf(str, token).Some?
    ensures var i := IndexOf(str, token).value;
      var rest := str[i + |token|..];
      var r := RemovePrefix(str, token);
      && OccursAt(str, token, i)
      && TrimmedAt(rest, r, |rest| - |TrimStart(rest)|)
      && (r == [] || (!IsJsSpace(r[0]) && !IsJsSpace(r[|r| - 1])))
  {
    var i := IndexOf(str, token).value;
    TrimSlice(str[i + |token|..]);
  }

  /** Text `before + token + after` with no `token` inside `before` loses `before` and the token. */
  lemma RemovePrefixOf(before: string, token: string, after: string)
    requires token != []
    requires forall j :: 0 <= j < |before| ==> !OccursAt(before + token + after, token, j)
    ensures RemovePrefix(before + token + after, token) == Trim(after)
  {
    var s := before + token + after;
    assert OccursAt(s, token, |before|) by {
      assert s[|before|..|before| + |token|] == token;
    }
    var i := IndexOf(s, token).value;
    assert i == |before|;
    assert s[i + |token|..] == after;
  }

  /** `removePrefix('prefix:suffix', ':')` keeps what follows the colon. */
  lemma ExamplePrefixSuffix(str: string)
    requires str == "prefix:suffix"
    ensures RemovePrefix(str, ":") == "suffix"
  {
    IndexOfChar(str, ':', 6);
    assert str[7..] == "suffix";
    TrimUntouched("suffix");
  }

  /** A text in which the one-character token does not occur comes back unchanged. */
  lemma RemovePrefixAbsent(str: string, c: char)
    requires forall i :: 0 <= i < |str| ==> str[i] != c
    ensures RemovePrefix(str, [c]) == str
  {
    IndexOfChar(str, c, |str|);
  }

  /** `removePrefix('prefix:suffix', '/')` finds no `/` and keeps the text. */
  lemma ExampleNoToken(str: string)
    requires str == "prefix:suffix"
    ensures RemovePrefix(str, "/") == str
  {
    RemovePrefixAbsent(str, '/');
  }

  /** `unauthorized(res)`: responds 401 with `Unauthorized request`. */
  method Unauthorized(res: Response, format: Format)
    modifies res
    ensures res.status == Some(Num(401))
    ensures res.body == Some(ErrorBody(401, "Unauthorized request", format, map[]))
    ensures res.headers == old(res.headers)
  {
    var message := RemovePrefix("Unauthorized request", ":");
    RemovePrefixAbsent("Unauthorized request", ':');
    SendDefaultResponseForCode(401, message, res, format, map[]);
  }

  /** `handleError(res)(err)`: sends the stack, with `err.code` as the status when it is truthy. */
  method HandleError(res: Response, code: Value, stack: string)
    modifies res
    ensures Truthy(code) ==> res.status == Some(code)
    ensures !Truthy(code) ==> res.status == old(res.status)
    ensures res.body == Some(Sent(stack)) && res.headers == old(res.headers)
  {
    if Truthy(code) {
      res.status := Some(code);
    }
    res.body := Some(Sent(stack));
  }
}
