/**
 * How a schedule entry is named: the site prefix of the request uri, the
 * `/_schedule/` segment, and the Base64 text of the target being published
 * (without its `http://` or `https://`). Also the rewrite of a versioned
 * uri to its `@published` version.
 */
module ScheduleKey {
  import opened Wrappers
  import opened Strings
  import opened Js
  import opened Buffer
  import opened References
  import EncodeVector

  const AtMessage := "Client: Missing \"at\" property as number."
  const PublishMessage := "Client: Missing \"publish\" property as valid url."
  const ScheduleSegment := "/_schedule/"

  // ------------------------------------------------------------ site prefix

  /** `s` contains no `/_`. */
  predicate NoRouteMark(s: string) {
    forall j :: 0 <= j <= |s| ==> !OccursAt(s, "/_", j)
  }

  /** `getPrefix(uri)`: the site part of a uri, everything before its first `/_`. */
  function GetPrefix(uri: string): (r: string)
    ensures StartsWith(uri, r)
  {
    match IndexOf(uri, "/_")
    case None => uri
    case Some(i) => uri[..i]
  }

  /** The prefix is cut exactly at the first `/_`, and holds no `/_` itself. */
  lemma GetPrefixCut(uri: string)
    ensures var p := GetPrefix(uri);
      && NoRouteMark(p)
      && (p == uri || OccursAt(uri, "/_", |p|))
  {
    match IndexOf(uri, "/_")
    case None =>
    case Some(i) =>
      var p := uri[..i];
      forall j | 0 <= j <= |p| ensures !OccursAt(p, "/_", j) {
        if j + 2 <= |p| {
          assert !OccursAt(uri, "/_", j);
          assert uri[j..j + 2] == p[j..j + 2];
        }
      }
  }

  /** Text without an underscore cannot contain `/_`. */
  lemma NoUnderscoreNoRouteMark(s: string)
    requires forall i :: 0 <= i < |s| ==> s[i] != '_'
    ensures NoRouteMark(s)
  {
    forall j | 0 <= j <= |s| ensures !OccursAt(s, "/_", j) {
      if j + 2 <= |s| {
        assert s[j..j + 2][1] == s[j + 1] != '_';
      }
    }
  }

  /** A site prefix followed by a route (`/_pages/...`, `/_schedule/...`) gives that prefix back. */
  lemma GetPrefixOf(p: string, route: string)
    requires NoRouteMark(p) && StartsWith(route, "/_")
    ensures GetPrefix(p + route) == p
  {
    var s := p + route;
    assert OccursAt(s, "/_", |p|) by {
      assert s[|p|..|p| + 2] == route[..2];
    }
    forall j | 0 <= j < |p| ensures !OccursAt(s, "/_", j) {
      if j + 2 <= |p| {
        assert s[j..j + 2] == p[j..j + 2];
        assert !OccursAt(p, "/_", j);
      } else {
        assert s[j + 1] == route[0] == '/';
      }
    }
  }

  // ------------------------------------------------------------ scheme removal

  /** The length of an `https://` or `http://` at position `i` of `s`, or 0. */
  function SchemeMatch(s: string, i: nat): (n: nat)
    ensures n == 0 || n == 7 || n == 8
    ensures n > 0 ==> i + n <= |s|
  {
    if OccursAt(s, "https://", i) then 8
    else if OccursAt(s, "http://", i) then 7
    else 0
  }

  /** The leftmost position at or after `k` where `/https?:\/\//` matches. */
  function FirstScheme(s: string, k: nat): (r: Option<nat>)
    requires k <= |s|
    decreases |s| - k
    ensures r.Some? ==> k <= r.value < |s| && SchemeMatch(s, r.value) > 0
    ensures forall j :: k <= j < (if r.Some? then r.value else |s|) ==> SchemeMatch(s, j) == 0
  {
    if k == |s| then None
    else if SchemeMatch(s, k) > 0 then Some(k)
    else FirstScheme(s, k + 1)
  }

  /** `publish.replace(/https?:\/\//, '')`: drops the first `http://` or `https://`, wherever it is. */
  function StripScheme(s: string): (r: string)
    ensures |r| <= |s|
    ensures FirstScheme(s, 0).None? ==> r == s
    ensures FirstScheme(s, 0).Some? ==>
      var i := FirstScheme(s, 0).value;
      var n := SchemeMatch(s, i);
      |r| == |s| - n && r[..i] == s[..i] && r[i..] == s[i + n..]
  {
    match FirstScheme(s, 0)
    case None => s
    case Some(i) => s[..i] + s[i + SchemeMatch(s, i)..]
  }

  /** A leading `http://` or `https://` is what goes. */
  lemma StripLeadingScheme(scheme: string, rest: string)
    requires scheme == "http" || scheme == "https"
    ensures StripScheme(scheme + "://" + rest) == rest
  {
    var s := scheme + "://" + rest;
    if scheme == "http" {
      assert s[..7] == "http://";
      assert s[4] == ':';
    } else {
      assert s[..8] == "https://";
    }
    assert SchemeMatch(s, 0) == |scheme| + 3;
    assert s[|scheme| + 3..] == rest;
  }

  /** Text with no `http://` or `https://` in it is left alone. */
  lemma StripSchemeUntouched(s: string)
    requires forall j :: 0 <= j < |s| ==> SchemeMatch(s, j) == 0
    ensures StripScheme(s) == s
  {
  }

  // ------------------------------------------------------------ version rewrite

  /**
   * `replaceVersion(uri, version)` for a string uri and a non-empty version:
   * the uri up to its first `@`, then `@` and the version.
   */
  function ReplaceVersion(uri: string, version: string): (r: string)
    ensures |r| == FindAny(uri, {'@'}) + 1 + |version|
    ensures r[..|r| - |version| - 1] == uri[..FindAny(uri, {'@'})]
    ensures r[|r| - |version| - 1..] == "@" + version
  {
    var n := FindAny(uri, {'@'});
    uri[..n] + "@" + version
  }

  /**
   * The rewrite keeps the uri up to, and not including, its first `@` (all
   * of it when there is none) and appends `@` and the version.
   */
  lemma ReplaceVersionShape(uri: string, version: string)
    ensures var r := ReplaceVersion(uri, version);
      var n := |r| - |version| - 1;
      && 0 <= n <= |uri|
      && r == uri[..n] + "@" + version
      && (forall i :: 0 <= i < n ==> uri[i] != '@')
      && (n == |uri| || uri[n] == '@')
  {
  }

  /** A uri whose base has no `@` gets exactly the new version after that base. */
  lemma ReplaceVersionOf(base: string, tail: string, version: string)
    requires forall i :: 0 <= i < |base| ==> base[i] != '@'
    requires tail == [] || tail[0] == '@'
    ensures ReplaceVersion(base + tail, version) == base + "@" + version
  {
    FindAnyAfter(base, tail, {'@'});
    assert (base + tail)[..|base|] == base;
  }

  /** Rewriting twice is rewriting once with the last version. */
  lemma ReplaceVersionTwice(uri: string, v: string, w: string)
    ensures ReplaceVersion(ReplaceVersion(uri, v), w) == ReplaceVersion(uri, w)
  {
    var n := FindAny(uri, {'@'});
    var base := uri[..n];
    ReplaceVersionOf(base, "@" + v, w);
    assert ReplaceVersion(uri, v) == base + ("@" + v);
    ReplaceVersionOf(base, uri[n..], w);
    assert base + uri[n..] == uri;
  }

  /** The scheduled version of a component instance is published under `@published`. */
  lemma ReplaceVersionExample(uri: string, base: string)
    requires base == "/_component/some/instances/someinstance"
    requires uri == base + "@scheduled"
    ensures ReplaceVersion(uri, "published") == base + "@published"
  {
    ReplaceVersionOf(base, "@scheduled", "published");
  }

  // ------------------------------------------------------------ the key

  /** The id of the entry of site `prefix` that publishes `publish`. */
  function Key(prefix: string, publish: string): (key: string)
    ensures |key| >= |prefix| + |ScheduleSegment|
  {
    prefix + ScheduleSegment + Encode(StripScheme(publish))
  }

  /**
   * `createScheduleObjectKey(uri, data)`: the id of the schedule entry, or
   * the message of the error thrown for a bad `data`.
   */
  function CreateScheduleObjectKey(uri: string, data: Data): (r: Result<string, string>)
    ensures !Get(data, "at").Num? <==> r == Failure(AtMessage)
    ensures Get(data, "at").Num? && !IsUrl(Get(data, "publish")) <==> r == Failure(PublishMessage)
    ensures r.Success? ==> Get(data, "at").Num? && IsUrl(Get(data, "publish"))
  {
    var at := Get(data, "at");
    var publish := Get(data, "publish");
    if !at.Num? then Failure(AtMessage)
    else if !IsUrl(publish) then Failure(PublishMessage)
    else Success(Key(GetPrefix(uri), publish.s))
  }

  /** A key is made from the site prefix of the uri and the `publish` string. */
  lemma KeyOf(uri: string, data: Data)
    requires CreateScheduleObjectKey(uri, data).Success?
    ensures Get(data, "publish").Str?
    ensures CreateScheduleObjectKey(uri, data).value == Key(GetPrefix(uri), Get(data, "publish").s)
  {
  }

  /** A key begins with the site prefix it was made for. */
  lemma KeyStartsWith(p: string, publish: string)
    ensures StartsWith(Key(p, publish), p)
  {
    assert Key(p, publish) == p + (ScheduleSegment + Encode(StripScheme(publish)));
  }

  /** A key is the site prefix, `/_schedule/`, and an encoded target that decodes back. */
  lemma KeyShape(p: string, publish: string)
    ensures var key := Key(p, publish);
      var token := key[|p| + |ScheduleSegment|..];
      && StartsWith(key, p + ScheduleSegment)
      && IsBase64Text(token)
      && Decode(token) == Some(StripScheme(publish))
  {
    var target := StripScheme(publish);
    assert Key(p, publish) == (p + ScheduleSegment) + Encode(target);
    EncodeRoundTrip(target);
  }

  /** Only the site and the target name an entry: the time it is due plays no part. */
  lemma KeyIgnoresAt(uri: string, data: Data, at: int)
    requires Get(data, "at").Num?
    ensures CreateScheduleObjectKey(uri, data["at" := Num(at)]) == CreateScheduleObjectKey(uri, data)
  {
    assert Get(data["at" := Num(at)], "publish") == Get(data, "publish");
  }

  /** Within one site, entries with different targets get different keys. */
  lemma KeyInjective(p: string, publish1: string, publish2: string)
    requires Key(p, publish1) == Key(p, publish2)
    ensures StripScheme(publish1) == StripScheme(publish2)
  {
    var q := p + ScheduleSegment;
    var e1 := Encode(StripScheme(publish1));
    var e2 := Encode(StripScheme(publish2));
    assert (q + e1)[|q|..] == e1 && (q + e2)[|q|..] == e2;
    EncodeInjective(StripScheme(publish1), StripScheme(publish2));
  }

  /** A key holds `/_`, so it is never the site prefix of any uri. */
  lemma KeyIsNoPrefix(p: string, publish: string, other: string)
    ensures GetPrefix(other) != Key(p, publish)
  {
    var key := Key(p, publish);
    assert OccursAt(key, "/_", |p|) by {
      assert key[|p|..|p| + 2] == "/_";
    }
    GetPrefixCut(other);
  }

  /** The site prefix of a key is the site prefix it was made for. */
  lemma KeyPrefix(uri: string, publish: string)
    ensures GetPrefix(Key(GetPrefix(uri), publish)) == GetPrefix(uri)
  {
    var p := GetPrefix(uri);
    var route := ScheduleSegment + Encode(StripScheme(publish));
    GetPrefixCut(uri);
    assert Key(p, publish) == p + route;
    assert route[..2] == "/_";
    GetPrefixOf(p, route);
  }

  // ------------------------------------------------------------ the example entry

  lemma ExampleUriPrefix(uri: string, p: string, route: string)
    requires uri == "http://somehost.com/_pages/sometext"
    requires p == "http://somehost.com" && route == "/_pages/sometext"
    ensures GetPrefix(uri) == p
  {
    assert uri == p + route;
    NoUnderscoreNoRouteMark(p);
    GetPrefixOf(p, route);
  }

  lemma ExamplePublishParts(host: string, path: string)
    requires host == "sometext.com" && path == "/_components/instance"
    ensures IsPlainHost(host) && IsPlainPath(path)
  {
  }

  lemma ExamplePublishAuthority(url: string, host: string, path: string)
    requires url == "http://sometext.com/_components/instance"
    requires host == "sometext.com" && path == "/_components/instance"
    ensures url == "http" + "://" + Authority(host, "", path)
  {
  }

  lemma ExamplePublishTarget(host: string, path: string, target: string)
    requires host == "sometext.com" && path == "/_components/instance"
    requires target == "sometext.com/_components/instance"
    ensures target == host + path
  {
  }

  lemma ExampleKeyFront(p: string, front: string)
    requires p == "http://somehost.com" && front == p + ScheduleSegment
    ensures front == "http://somehost.com/_schedule/"
  {
  }

  /** The example target is a URL, and without its scheme it is `sometext.com/_components/instance`. */
  lemma ExamplePublish(url: string, target: string)
    requires url == "http://sometext.com/_components/instance"
    requires target == "sometext.com/_components/instance"
    ensures IsUrl(Str(url)) && StripScheme(url) == target
  {
    var host, path := "sometext.com", "/_components/instance";
    ExamplePublishParts(host, path);
    ExamplePublishAuthority(url, host, path);
    PlainUrlParts(url, "http", host, "", path);
    ExamplePublishTarget(host, path, target);
    assert Authority(host, "", path) == target;
    StripLeadingScheme("http", target);
  }

  /** The example key, from its parts. */
  lemma ExampleKeyOf(p: string, publish: string, target: string)
    requires p == "http://somehost.com" && target == "sometext.com/_components/instance"
    requires StripScheme(publish) == target
    ensures Key(p, publish) == "http://somehost.com/_schedule/" + "c29tZXRleHQuY29tL19jb21wb25lbnRzL2luc3RhbmNl"
  {
    EncodeVector.EncodeExampleTarget(target);
    ExampleKeyFront(p, p + ScheduleSegment);
    assert Key(p, publish) == (p + ScheduleSegment) + Encode(target);
  }

  /** The entry for page `sometext` of `somehost.com` publishing `sometext.com/_components/instance`. */
  lemma ExampleKey(uri: string, publish: string, data: Data)
    requires uri == "http://somehost.com/_pages/sometext"
    requires publish == "http://sometext.com/_components/instance"
    requires data == map["at" := Num(1000), "publish" := Str(publish)]
    ensures CreateScheduleObjectKey(uri, data)
      == Success("http://somehost.com/_schedule/" + "c29tZXRleHQuY29tL19jb21wb25lbnRzL2luc3RhbmNl")
  {
    var p, target := "http://somehost.com", "sometext.com/_components/instance";
    ExampleUriPrefix(uri, p, "/_pages/sometext");
    ExamplePublish(publish, target);
    ExampleKeyOf(p, publish, target);
    ExampleData(publish, data);
  }

  lemma ExampleData(publish: string, data: Data)
    requires data == map["at" := Num(1000), "publish" := Str(publish)]
    ensures Get(data, "at") == Num(1000) && Get(data, "publish") == Str(publish)
  {
  }

  /** Without `at`, the `at` check fails first, whatever `publish` is. */
  lemma ExampleMissingAt(uri: string, data: Data)
    requires data == map["publish" := Str("http://sometext.com/_components/instance")]
    ensures CreateScheduleObjectKey(uri, data) == Failure(AtMessage)
  {
    assert "at" !in data;
  }

  /** A numeric `at` and no `publish`: the `publish` check fails. */
  lemma ExampleMissingPublish(uri: string, data: Data)
    requires data == map["at" := Num(1000)]
    ensures CreateScheduleObjectKey(uri, data) == Failure(PublishMessage)
  {
    assert "publish" !in data;
  }

  /** A numeric `at` and a `publish` that is not a URL: the `publish` check fails. */
  lemma ExampleInvalidPublish(uri: string, data: Data, s: string)
    requires s == "sometestingtext" && data == map["at" := Num(1000), "publish" := Str(s)]
    ensures CreateScheduleObjectKey(uri, data) == Failure(PublishMessage)
  {
    ExampleTestingText(s);
    assert Get(data, "publish") == Str(s);
  }
}
