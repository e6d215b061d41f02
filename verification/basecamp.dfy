/** The Basecamp notifier (lib/souvlaki_rs/basecamp.rb): lines collected per
    message, the comment payload and its content, the request headers and
    the endpoint paths. The HTTP exchange is not modelled. */
module Basecamp {
  import opened Wrappers
  import opened Text

  /** The notifier's state: the configured message id and, per message id,
      the lines to post in the order they were added. */
  datatype Notifier = Notifier(globalMsgId: Option<string>, messages: map<Option<string>, seq<string>>)

  /** The id a line is filed under: the one given, else the configured one. */
  function TargetId(n: Notifier, msgId: Option<string>): (id: Option<string>)
    ensures msgId.Some? ==> id == msgId
    ensures msgId.None? ==> id == n.globalMsgId
  {
    if msgId.Some? then msgId else n.globalMsgId
  }

  /** The lines filed under `id`, none when it has no entry yet. */
  function Lines(n: Notifier, id: Option<string>): seq<string> {
    if id in n.messages then n.messages[id] else []
  }

  /** `add_text`: appends the line to its message's list, creating the list
      when new; every other message is untouched. */
  function AddText(n: Notifier, txt: string, msgId: Option<string>): (r: Notifier)
    ensures r.globalMsgId == n.globalMsgId
    ensures TargetId(n, msgId) in r.messages
    ensures Lines(r, TargetId(n, msgId)) == Lines(n, TargetId(n, msgId)) + [txt]
    ensures forall id :: id != TargetId(n, msgId) ==> (id in r.messages <==> id in n.messages)
    ensures forall id :: id != TargetId(n, msgId) && id in n.messages ==> r.messages[id] == n.messages[id]
  {
    var id := TargetId(n, msgId);
    n.(messages := n.messages[id := Lines(n, id) + [txt]])
  }

  /** Adding several lines in order. */
  function AddTexts(n: Notifier, lines: seq<string>, msgId: Option<string>): Notifier
    decreases |lines|
  {
    if |lines| == 0 then n else AddTexts(AddText(n, lines[0], msgId), lines[1..], msgId)
  }

  /** Lines added one after another end up, in order, after the ones already
      filed, and no other message changes. */
  lemma {:induction false} AddTextsAppends(n: Notifier, lines: seq<string>, msgId: Option<string>)
    ensures AddTexts(n, lines, msgId).globalMsgId == n.globalMsgId
    ensures Lines(AddTexts(n, lines, msgId), TargetId(n, msgId)) == Lines(n, TargetId(n, msgId)) + lines
    ensures forall id :: id != TargetId(n, msgId) ==> Lines(AddTexts(n, lines, msgId), id) == Lines(n, id)
    decreases |lines|
  {
    if |lines| > 0 {
      var m := AddText(n, lines[0], msgId);
      AddTextsAppends(m, lines[1..], msgId);
      assert [lines[0]] + lines[1..] == lines;
      assert Lines(m, TargetId(n, msgId)) + lines[1..] == Lines(n, TargetId(n, msgId)) + lines;
    }
  }

  /** Lines for different messages can be added in either order. */
  lemma AddTextCommutes(n: Notifier, a: string, i: Option<string>, b: string, j: Option<string>)
    requires TargetId(n, i) != TargetId(n, j)
    ensures AddText(AddText(n, a, i), b, j) == AddText(AddText(n, b, j), a, i)
  {
  }

  // ---------------------------------------------------------------------
  // Payload and content

  /** One list item of the comment. */
  function Item(t: string): string {
    "<li>" + t + "</li>"
  }

  /** The list items of the lines, in order. */
  function Items(lines: seq<string>): (r: string)
    ensures |lines| == 0 ==> r == ""
    ensures |lines| > 0 ==> StartsWith(r, Item(lines[0]))
  {
    if |lines| == 0 then "" else
      var r := Item(lines[0]) + Items(lines[1..]);
      assert r[..|Item(lines[0])|] == Item(lines[0]);
      r
  }

  /** The items of two runs of lines are the two runs of items. */
  lemma {:induction false} ItemsAppend(a: seq<string>, b: seq<string>)
    ensures Items(a + b) == Items(a) + Items(b)
    decreases |a|
  {
    if |a| == 0 {
      assert a + b == b;
    } else {
      assert (a + b)[0] == a[0] && (a + b)[1..] == a[1..] + b;
      ItemsAppend(a[1..], b);
    }
  }

  /** Every line adds its text and nine characters of markup. */
  lemma {:induction false} ItemsLength(lines: seq<string>, total: nat)
    requires total == SumLengths(lines)
    ensures |Items(lines)| == total + 9 * |lines|
    decreases |lines|
  {
    if |lines| > 0 {
      ItemsLength(lines[1..], SumLengths(lines[1..]));
    }
  }

  function SumLengths(lines: seq<string>): nat {
    if |lines| == 0 then 0 else |lines[0]| + SumLengths(lines[1..])
  }

  function ContentHead(version: string): string {
    "<p>SRS v" + version + " auto-import:<ul>"
  }

  /** `make_content`: a heading with the version, a list item per line, and a
      closing "<ul>" (an opening tag, as written). */
  function MakeContent(version: string, lines: seq<string>): (r: string)
    ensures StartsWith(r, ContentHead(version)) && EndsWith(r, "<ul>")
    ensures |r| == |ContentHead(version)| + |Items(lines)| + 4
    ensures r[|ContentHead(version)|..|r| - 4] == Items(lines)
  {
    var h := ContentHead(version);
    var r := h + Items(lines) + "<ul>";
    assert r[..|h|] == h;
    assert r[|h|..|r| - 4] == Items(lines);
    r
  }

  /** Filing one more line extends the content by exactly its list item. */
  lemma ContentAfterAdd(n: Notifier, version: string, txt: string, msgId: Option<string>)
    ensures var id := TargetId(n, msgId);
      MakeContent(version, Lines(AddText(n, txt, msgId), id))
        == ContentHead(version) + Items(Lines(n, id)) + Item(txt) + "<ul>"
  {
    var id := TargetId(n, msgId);
    var before := Lines(n, id);
    assert Lines(AddText(n, txt, msgId), id) == before + [txt];
    ItemsAppend(before, [txt]);
    assert Items([txt]) == Item(txt) by {
      assert [txt][1..] == [];
    }
    assert Items(before + [txt]) == Items(before) + Item(txt);
  }

  /** The comment body: the content, and the subscribers when there are any. */
  datatype Payload = Payload(content: string, subscribers: Option<seq<int>>)

  /** `payload` */
  function MakePayload(version: string, lines: seq<string>, subscriberIds: seq<int>): (r: Payload)
    ensures r.content == MakeContent(version, lines)
    ensures r.subscribers.Some? <==> |subscriberIds| > 0
    ensures r.subscribers.Some? ==> r.subscribers.value == subscriberIds
  {
    Payload(MakeContent(version, lines), if |subscriberIds| == 0 then None else Some(subscriberIds))
  }

  // ---------------------------------------------------------------------
  // Headers and endpoints

  const UserAgent: string := "SouvlakiRS Notifier"

  /** `headers` */
  function Headers(uaEmail: Option<string>): (r: map<string, string>)
    ensures r.Keys == {"User-Agent", "Content-Type"}
    ensures r["User-Agent"] == UserAgent + " (" + Interp(uaEmail) + ")"
    ensures r["Content-Type"] == "application/json"
  {
    map["User-Agent" := UserAgent + " (" + Interp(uaEmail) + ")", "Content-Type" := "application/json"]
  }

  /** The credentials the endpoints are built from; any may be missing. */
  datatype Account = Account(baseUri: string, userId: Option<string>, projectId: Option<string>)

  /** The message's path before its final suffix. */
  function MessageStem(a: Account, msgId: Option<string>): string {
    a.baseUri + "/" + Interp(a.userId) + "/api/v1/projects/" + Interp(a.projectId) + "/messages/" + Interp(msgId)
  }

  function MessageEndpoint(a: Account, msgId: Option<string>): string {
    MessageStem(a, msgId) + ".json"
  }

  function CommentEndpoint(a: Account, msgId: Option<string>): string {
    MessageStem(a, msgId) + "/comments.json"
  }

  /** The comments endpoint is the message endpoint with "/comments" put
      before ".json". */
  lemma CommentEndpointExtendsMessage(a: Account, msgId: Option<string>)
    ensures var m := MessageEndpoint(a, msgId);
      EndsWith(m, ".json") && CommentEndpoint(a, msgId) == m[..|m| - 5] + "/comments.json"
  {
    var m := MessageEndpoint(a, msgId);
    assert m[..|m| - 5] == MessageStem(a, msgId);
  }

  /** `request_message_uri`: the request part of the message endpoint. */
  function RequestMessageUri(a: Account, msgId: Option<string>): (r: string)
    ensures |r| > 0 && r[0] == '/'
    ensures '#' !in r
  {
    RequestUri(MessageEndpoint(a, msgId))
  }

  /** `post_comment_uri`: the request part of the comments endpoint. */
  function PostCommentUri(a: Account, msgId: Option<string>): (r: string)
    ensures |r| > 0 && r[0] == '/'
    ensures '#' !in r
  {
    RequestUri(CommentEndpoint(a, msgId))
  }

  /** The request path of a message under `base_uri` "scheme://host": the
      user, project and message segments, then ".json". */
  function MessagePath(a: Account, msgId: Option<string>): string {
    "/" + Interp(a.userId) + "/api/v1/projects/" + Interp(a.projectId) + "/messages/" + Interp(msgId)
  }

  /** The stem under "scheme://host" is the authority, then the message
      path, which has no '#' when the ids have none. */
  lemma StemSplit(a: Account, msgId: Option<string>, scheme: string, host: string)
    requires a.baseUri == scheme + "://" + host
    requires '#' !in Interp(a.userId) && '#' !in Interp(a.projectId) && '#' !in Interp(msgId)
    ensures MessageStem(a, msgId) == scheme + "://" + host + MessagePath(a, msgId)
    ensures '#' !in MessagePath(a, msgId)
  {
    assert '#' !in "/" && '#' !in "/api/v1/projects/" && '#' !in "/messages/";
  }

  /** For a base URI "scheme://host" and ids free of '#', the message is
      requested at its path, ".json" appended. */
  lemma MessageUriPath(a: Account, msgId: Option<string>, scheme: string, host: string)
    requires a.baseUri == scheme + "://" + host
    requires ':' !in scheme && '/' !in host && '?' !in host && '#' !in host
    requires '#' !in Interp(a.userId) && '#' !in Interp(a.projectId) && '#' !in Interp(msgId)
    ensures RequestMessageUri(a, msgId)
      == "/" + Interp(a.userId) + "/api/v1/projects/" + Interp(a.projectId) + "/messages/" + Interp(msgId) + ".json"
  {
    var path := MessagePath(a, msgId) + ".json";
    StemSplit(a, msgId, scheme, host);
    assert '#' !in ".json";
    assert MessageEndpoint(a, msgId) == scheme + "://" + host + path;
    RequestUriOfAbsolute(scheme, host, path);
  }

  /** The same for comments: the message path, then "/comments.json". */
  lemma CommentUriPath(a: Account, msgId: Option<string>, scheme: string, host: string)
    requires a.baseUri == scheme + "://" + host
    requires ':' !in scheme && '/' !in host && '?' !in host && '#' !in host
    requires '#' !in Interp(a.userId) && '#' !in Interp(a.projectId) && '#' !in Interp(msgId)
    ensures PostCommentUri(a, msgId)
      == "/" + Interp(a.userId) + "/api/v1/projects/" + Interp(a.projectId) + "/messages/" + Interp(msgId)
         + "/comments.json"
  {
    var path := MessagePath(a, msgId) + "/comments.json";
    StemSplit(a, msgId, scheme, host);
    assert '#' !in "/comments.json";
    assert CommentEndpoint(a, msgId) == scheme + "://" + host + path;
    RequestUriOfAbsolute(scheme, host, path);
  }

  /** The source's tests: with base "http://", no user id and project "123",
      message "1" is requested at "//api/v1/projects/123/messages/1.json". */
  lemma EndpointExamples()
    ensures RequestMessageUri(Account("http://", None, Some("123")), Some("1"))
      == "//api/v1/projects/123/messages/1.json"
    ensures PostCommentUri(Account("http://", None, Some("123")), Some("1"))
      == "//api/v1/projects/123/messages/1/comments.json"
  {
    MessageEndpointExample();
    RequestUriAfterEmptyHost("//api/v1/projects/123/messages/1.json");
    CommentEndpointExample();
    RequestUriAfterEmptyHost("//api/v1/projects/123/messages/1/comments.json");
  }

  lemma MessageEndpointExample()
    ensures MessageEndpoint(Account("http://", None, Some("123")), Some("1"))
      == "http://" + "//api/v1/projects/123/messages/1.json"
  {
    StemExample();
    assert "//api/v1/projects/123/messages/1" + ".json" == "//api/v1/projects/123/messages/1.json";
  }

  lemma CommentEndpointExample()
    ensures CommentEndpoint(Account("http://", None, Some("123")), Some("1"))
      == "http://" + "//api/v1/projects/123/messages/1/comments.json"
  {
    StemExample();
    assert "//api/v1/projects/123/messages/1" + "/comments.json" == "//api/v1/projects/123/messages/1/comments.json";
  }

  lemma StemExample()
    ensures MessageStem(Account("http://", None, Some("123")), Some("1"))
      == "http://" + "//api/v1/projects/123/messages/1"
  {
    assert Interp(None) == "" && Interp(Some("123")) == "123" && Interp(Some("1")) == "1";
  }

  /** With an empty authority, the request part is everything after
      "http://", up to a fragment. */
  lemma RequestUriAfterEmptyHost(path: string)
    requires |path| > 0 && path[0] == '/' && '#' !in path
    ensures RequestUri("http://" + path) == path
  {
    var url := "http://" + path;
    assert OccursAt(url, "://", 4);
    assert forall k :: 0 <= k < 4 ==> !OccursAt(url, "://", k) by {
      forall k | 0 <= k < 4 ensures !OccursAt(url, "://", k) {
        assert url[k] != ':';
      }
    }
    assert FindFrom(url, "://", 0) == Some(4);
    assert url[7..] == path;
    assert TakeUntil(path, {'/'}) == [];
    assert TakeUntil(path, {'#'}) == path by {
      TakeUntilAbsent(path, {'#'});
    }
  }
}
