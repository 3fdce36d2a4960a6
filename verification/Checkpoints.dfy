/** Loading a persisted chat history, whose checkpoint segments are bound to the message before
    them, and dumping it again. */
module Checkpoints {
  import opened Json
  import opened Text

  const CHECKPOINT_ROLE := "_checkpoint"

  predicate IsRole(role: string) {
    role == "system" || role == "user" || role == "assistant" || role == "tool"
  }

  datatype PartBody =
    | TextPart(text: string)
    | ThinkPart(think: string, encrypted: Option<string>)
    | ImagePart(url: string, id: Option<string>)
    | AudioPart(url: string, id: Option<string>)

  /** A content part; `noSave` marks it temporary. */
  datatype Part = Part(body: PartBody, noSave: bool)

  datatype Content = Absent | Plain(text: string) | Parts(parts: seq<Part>)

  /** The validated fields of a message. */
  datatype Body = Body(role: string, content: Content, toolCalls: Option<Json>, toolCallId: Option<string>)

  /** A message with its private attributes; `after` is the id of the bound checkpoint. */
  datatype Bound = Bound(body: Body, noSave: bool, after: Option<string>)

  /** Validation of `tool_calls`: what the validated value dumps to, or None when it raises. */
  type CallReader = Json -> Option<Json>

  /** Dumped tool calls are read back as themselves. */
  ghost predicate Stable(read: CallReader) {
    forall j :: read(j).Some? ==> read(j).value != Null && read(read(j).value) == read(j)
  }

  // ---------------------------------------------------------------- reading one item

  predicate Truthy(j: Json) {
    match j
    case Null => false
    case Bool(b) => b
    case Num(n) => n != 0.0
    case Str(s) => s != ""
    case Arr(items) => items != []
    case Obj(fs) => fs != []
  }

  predicate Flagged(fs: Fields) {
    var flag := Find(fs, "_no_save");
    flag.Some? && Truthy(flag.value)
  }

  /** A field of type `str | None` with default None; None when validation raises. */
  function ReadOptional(fs: Fields, key: string): Option<Option<string>> {
    match Find(fs, key)
    case None => Some(None)
    case Some(Null) => Some(None)
    case Some(Str(s)) => Some(Some(s))
    case Some(_) => None
  }

  function ReadString(fs: Fields, key: string): Option<string> {
    match Find(fs, key)
    case Some(Str(s)) => Some(s)
    case _ => None
  }

  function ReadBody(fs: Fields): Option<PartBody> {
    match ReadString(fs, "type")
    case None => None
    case Some(kind) =>
      if kind == "text" then
        var text := ReadString(fs, "text");
        if text.Some? then Some(TextPart(text.value)) else None
      else if kind == "think" then
        var think, encrypted := ReadString(fs, "think"), ReadOptional(fs, "encrypted");
        if think.Some? && encrypted.Some? then Some(ThinkPart(think.value, encrypted.value)) else None
      else if kind == "image_url" || kind == "audio_url" then
        match Find(fs, kind)
        case Some(Obj(media)) =>
          var url, id := ReadString(media, "url"), ReadOptional(media, "id");
          if url.None? || id.None? then None
          else if kind == "image_url" then Some(ImagePart(url.value, id.value))
          else Some(AudioPart(url.value, id.value))
        case _ => None
      else None
  }

  function ReadPart(j: Json): Option<Part> {
    if !j.Obj? then None
    else
      var body := ReadBody(j.fields);
      if body.Some? then Some(Part(body.value, Flagged(j.fields))) else None
  }

  function ReadParts(items: seq<Json>): Option<seq<Part>> {
    if items == [] then Some([])
    else
      var first, rest := ReadPart(items[0]), ReadParts(items[1..]);
      if first.Some? && rest.Some? then Some([first.value] + rest.value) else None
  }

  /** A dict as content would be checkpoint data, which other roles must not carry. */
  function ReadContent(field: Option<Json>): Option<Content> {
    match field
    case None => Some(Absent)
    case Some(Null) => Some(Absent)
    case Some(Str(s)) => Some(Plain(s))
    case Some(Arr(items)) =>
      var parts := ReadParts(items);
      if parts.Some? then Some(Parts(parts.value)) else None
    case Some(_) => None
  }

  function ReadCalls(read: CallReader, field: Option<Json>): Option<Option<Json>> {
    match field
    case None => Some(None)
    case Some(Null) => Some(None)
    case Some(j) => if read(j).Some? then Some(read(j)) else None
  }

  /** Content is required unless an assistant message has tool calls. */
  predicate ContentOk(role: string, content: Content, calls: Option<Json>) {
    (role == "assistant" && calls.Some?) || content != Absent
  }

  /** `Message.model_validate` on an item that is not a checkpoint; None when it raises. */
  function ReadMessage(read: CallReader, item: Json): Option<Body> {
    if !item.Obj? then None
    else
      var fs := item.fields;
      var role, content := ReadString(fs, "role"), ReadContent(Find(fs, "content"));
      var calls, id := ReadCalls(read, Find(fs, "tool_calls")), ReadOptional(fs, "tool_call_id");
      if role.Some? && IsRole(role.value) && content.Some? && calls.Some? && id.Some?
         && ContentOk(role.value, content.value, calls.value)
      then Some(Body(role.value, content.value, calls.value, id.value)) else None
  }

  predicate IsCheckpoint(item: Json) {
    item.Obj? && Find(item.fields, "role") == Some(Str(CHECKPOINT_ROLE))
  }

  /** The id of a checkpoint item, or None when its content is malformed. */
  function CheckpointId(item: Json): Option<string>
    requires IsCheckpoint(item)
  {
    match Find(item.fields, "content")
    case Some(Obj(fs)) => ReadString(fs, "id")
    case _ => None
  }

  function Strip(history: seq<Json>): seq<Json> {
    if history == [] then []
    else
      var item := history[|history| - 1];
      Strip(history[..|history| - 1]) + (if IsCheckpoint(item) then [] else [item])
  }

  // ---------------------------------------------------------------- bind and dump

  /** `messages[-1]._checkpoint_after = id`. */
  function WithAfter(messages: seq<Bound>, id: Option<string>): seq<Bound>
    requires messages != []
  {
    messages[|messages| - 1 := messages[|messages| - 1].(after := id)]
  }

  function BindOne(read: CallReader, messages: seq<Bound>, item: Json): Option<seq<Bound>> {
    if IsCheckpoint(item) then
      var id := CheckpointId(item);
      Some(if id.Some? && messages != [] then WithAfter(messages, id) else messages)
    else
      var body := ReadMessage(read, item);
      if body.Some? then Some(messages + [Bound(body.value, Flagged(item.fields), None)]) else None
  }

  function Bind(read: CallReader, history: seq<Json>): Option<seq<Bound>> {
    if history == [] then Some([])
    else
      var before := Bind(read, history[..|history| - 1]);
      if before.Some? then BindOne(read, before.value, history[|history| - 1]) else None
  }

  function OptionalItem(s: Option<string>): Json {
    if s.Some? then Str(s.value) else Null
  }

  function PartItem(body: PartBody): Json {
    match body
    case TextPart(text) => Obj([Field("type", Str("text")), Field("text", Str(text))])
    case ThinkPart(think, encrypted) =>
      Obj([Field("type", Str("think")), Field("think", Str(think)), Field("encrypted", OptionalItem(encrypted))])
    case ImagePart(url, id) => Obj([Field("type", Str("image_url")), Field("image_url", MediaItem(url, id))])
    case AudioPart(url, id) => Obj([Field("type", Str("audio_url")), Field("audio_url", MediaItem(url, id))])
  }

  function MediaItem(url: string, id: Option<string>): Json {
    Obj([Field("url", Str(url)), Field("id", OptionalItem(id))])
  }

  /** Temporary parts are not saved. */
  function SavedParts(parts: seq<Part>): seq<Json> {
    if parts == [] then []
    else (if parts[0].noSave then [] else [PartItem(parts[0].body)]) + SavedParts(parts[1..])
  }

  function ContentItem(content: Content): Json {
    match content
    case Absent => Null
    case Plain(text) => Str(text)
    case Parts(parts) => Arr(SavedParts(parts))
  }

  function MessageItem(body: Body): Json {
    Obj([Field("role", Str(body.role)), Field("content", ContentItem(body.content))]
        + (if body.toolCalls.Some? then [Field("tool_calls", body.toolCalls.value)] else [])
        + (if body.toolCallId.Some? then [Field("tool_call_id", Str(body.toolCallId.value))] else []))
  }

  function CheckpointItem(id: string): Json {
    Obj([Field("role", Str(CHECKPOINT_ROLE)), Field("content", Obj([Field("id", Str(id))]))])
  }

  function DumpOne(message: Bound): seq<Json> {
    [MessageItem(message.body)] + (if message.after.Some? then [CheckpointItem(message.after.value)] else [])
  }

  function Dump(messages: seq<Bound>): seq<Json> {
    if messages == [] then []
    else Dump(messages[..|messages| - 1]) + DumpOne(messages[|messages| - 1])
  }

  // ---------------------------------------------------------------- the loops

  class Message {
    const body: Body
    var noSave: bool
    var checkpointAfter: Option<string>

    constructor (body: Body)
      ensures this.body == body && !noSave && checkpointAfter == None
    {
      this.body, noSave, checkpointAfter := body, false, None;
    }

    function Value(): Bound
      reads this
    {
      Bound(body, noSave, checkpointAfter)
    }
  }

  ghost function Values(messages: seq<Message>): seq<Bound>
    reads messages
  {
    seq(|messages|, i requires 0 <= i < |messages| reads messages => messages[i].Value())
  }

  ghost predicate DistinctObjects(messages: seq<Message>) {
    forall i, j :: 0 <= i < j < |messages| ==> messages[i] != messages[j]
  }

  method BindCheckpointMessages(read: CallReader, history: seq<Json>) returns (messages: Option<seq<Message>>)
    ensures messages.None? <==> Bind(read, history).None?
    ensures messages.Some? ==>
              fresh(messages.value) && DistinctObjects(messages.value) &&
                  Values(messages.value) == Bind(read, history).value
  {
    var bound: seq<Message> := [];
    var i := 0;
    assert history[..0] == [] && Values(bound) == [];
    while i < |history|
      invariant i <= |history|
      invariant fresh(bound) && DistinctObjects(bound)
      invariant Bind(read, history[..i]) == Some(Values(bound))
    {
      var item := history[i];
      BindSnoc(read, history, i);
      if IsCheckpoint(item) {
        var id := CheckpointId(item);
        if id.Some? && bound != [] {
          SetCheckpoint(bound, id);
        }
      } else {
        var body := ReadMessage(read, item);
        if body.None? {
          BindFails(read, history, i + 1);
          return None;
        }
        var message := FlaggedMessage(body.value, Flagged(item.fields));
        ValuesSnoc(bound, message);
        bound := bound + [message];
      }
      i := i + 1;
    }
    assert history[..i] == history;
    return Some(bound);
  }

  method FlaggedMessage(body: Body, noSave: bool) returns (message: Message)
    ensures fresh(message) && message.Value() == Bound(body, noSave, None)
  {
    message := new Message(body);
    if noSave {
      message.noSave := true;
    }
  }

  lemma ValuesSnoc(messages: seq<Message>, message: Message)
    ensures Values(messages + [message]) == Values(messages) + [message.Value()]
  {
  }

  method SetCheckpoint(messages: seq<Message>, id: Option<string>)
    requires messages != [] && DistinctObjects(messages)
    modifies messages[|messages| - 1]
    ensures Values(messages) == WithAfter(old(Values(messages)), id)
  {
    messages[|messages| - 1].checkpointAfter := id;
  }

  lemma BindSnoc(read: CallReader, history: seq<Json>, i: nat)
    requires i < |history|
    ensures Bind(read, history[..i + 1])
         == var before := Bind(read, history[..i]);
            if before.Some? then BindOne(read, before.value, history[i]) else None
  {
    assert history[..i + 1][..i] == history[..i];
  }

  lemma {:induction false} BindFails(read: CallReader, history: seq<Json>, i: nat)
    requires i <= |history| && Bind(read, history[..i]).None?
    ensures Bind(read, history).None?
    decreases |history| - i
  {
    if i == |history| {
      assert history[..i] == history;
    } else {
      BindSnoc(read, history, i);
      BindFails(read, history, i + 1);
    }
  }

  method DumpMessagesWithCheckpoints(messages: seq<Message>) returns (dumped: seq<Json>)
    ensures dumped == Dump(Values(messages))
  {
    dumped := [];
    var i := 0;
    while i < |messages|
      invariant i <= |messages|
      invariant dumped == Dump(Values(messages)[..i])
    {
      var message := messages[i];
      dumped := dumped + [MessageItem(message.body)];
      if message.checkpointAfter.Some? {
        dumped := dumped + [CheckpointItem(message.checkpointAfter.value)];
      }
      assert Values(messages)[..i + 1][..i] == Values(messages)[..i];
      i := i + 1;
    }
    assert Values(messages)[..i] == Values(messages);
  }

  // ---------------------------------------------------------------- what dump can have written

  predicate IsOptional(j: Json) {
    j.Str? || j.Null?
  }

  predicate CanonicalMedia(j: Json) {
    && j.Obj? && |j.fields| == 2
    && j.fields[0].key == "url" && j.fields[0].value.Str?
    && j.fields[1].key == "id" && IsOptional(j.fields[1].value)
  }

  predicate CanonicalPart(j: Json) {
    && j.Obj? && |j.fields| >= 2 && j.fields[0].key == "type" && j.fields[0].value.Str?
    && var kind, second := j.fields[0].value.s, j.fields[1];
    && second.key == kind
    && match kind
       case "text" => |j.fields| == 2 && second.value.Str?
       case "think" =>
         |j.fields| == 3 && second.value.Str? && j.fields[2].key == "encrypted" && IsOptional(j.fields[2].value)
       case "image_url" => |j.fields| == 2 && CanonicalMedia(second.value)
       case "audio_url" => |j.fields| == 2 && CanonicalMedia(second.value)
       case _ => false
  }

  predicate CanonicalContent(j: Json) {
    match j
    case Null => true
    case Str(_) => true
    case Arr(items) => forall i :: 0 <= i < |items| ==> CanonicalPart(items[i])
    case _ => false
  }

  /** Role, content, and then the tool fields that are set; nothing else. */
  predicate CanonicalMessage(read: CallReader, item: Json) {
    && item.Obj? && |item.fields| >= 2
    && var fs := item.fields;
    && fs[0].key == "role" && fs[0].value.Str? && IsRole(fs[0].value.s)
    && fs[1].key == "content" && CanonicalContent(fs[1].value)
    && var calls := |fs| > 2 && fs[2].key == "tool_calls";
    && (calls ==> fs[2].value != Null && read(fs[2].value) == Some(fs[2].value))
    && (fs[1].value == Null ==> fs[0].value.s == "assistant" && calls)
    && var k := if calls then 3 else 2;
    && (|fs| == k || (|fs| == k + 1 && fs[k].key == "tool_call_id" && fs[k].value.Str?))
  }

  predicate CanonicalCheckpoint(item: Json) {
    && item.Obj? && |item.fields| == 2
    && item.fields[0] == Field("role", Str(CHECKPOINT_ROLE))
    && item.fields[1].key == "content" && item.fields[1].value.Obj?
    && var data := item.fields[1].value.fields;
    && |data| == 1 && data[0].key == "id" && data[0].value.Str?
  }

  /** No leading checkpoint, at most one after each message, no temporary flags, no extra keys. */
  predicate Canonical(read: CallReader, history: seq<Json>) {
    forall i :: 0 <= i < |history| ==> CanonicalAt(read, history, i)
  }

  predicate CanonicalAt(read: CallReader, history: seq<Json>, i: nat)
    requires i < |history|
  {
    Fits(read, history[i], i > 0 && !IsCheckpoint(history[i - 1]))
  }

  /** A canonical item in its place: checkpoints need a message just before them. */
  predicate Fits(read: CallReader, item: Json, afterMessage: bool) {
    if IsCheckpoint(item) then CanonicalCheckpoint(item) && afterMessage else CanonicalMessage(read, item)
  }

  lemma {:induction false} FindIs(fs: Fields, key: string, i: nat)
    requires i <= |fs| && (forall k :: 0 <= k < i ==> fs[k].key != key) && (i < |fs| ==> fs[i].key == key)
    ensures Find(fs, key) == if i < |fs| then Some(fs[i].value) else None
  {
    if i > 0 {
      FindIs(fs[1..], key, i - 1);
    }
  }

  /** The keys of one length differ. */
  lemma KeysDiffer()
    ensures "type" != "text"
  {
    assert "type"[1] != "text"[1];
  }

  lemma MediaReadBack(media: Json)
    requires CanonicalMedia(media)
    ensures var url, id := ReadString(media.fields, "url"), ReadOptional(media.fields, "id");
            url.Some? && id.Some? && MediaItem(url.value, id.value) == media
  {
    FindIs(media.fields, "url", 0);
    FindIs(media.fields, "id", 1);
  }

  lemma PartReadBack(j: Json)
    requires CanonicalPart(j)
    ensures ReadPart(j).Some? && !ReadPart(j).value.noSave && PartItem(ReadPart(j).value.body) == j
  {
    var fs := j.fields;
    KeysDiffer();
    FindIs(fs, "type", 0);
    FindIs(fs, "_no_save", |fs|);
    FindIs(fs, fs[1].key, 1);
    match fs[1].key
    case "think" => FindIs(fs, "encrypted", 2);
    case "image_url" => MediaReadBack(fs[1].value);
    case "audio_url" => MediaReadBack(fs[1].value);
    case _ =>
  }

  lemma {:induction false} PartsReadBack(items: seq<Json>)
    requires forall i :: 0 <= i < |items| ==> CanonicalPart(items[i])
    ensures ReadParts(items).Some? && SavedParts(ReadParts(items).value) == items
  {
    if items != [] {
      PartReadBack(items[0]);
      PartsReadBack(items[1..]);
      var first, rest := ReadPart(items[0]).value, ReadParts(items[1..]).value;
      assert ([first] + rest)[1..] == rest;
    }
  }

  lemma {:induction false} SavedPartsCanonical(parts: seq<Part>)
    ensures forall i :: 0 <= i < |SavedParts(parts)| ==> CanonicalPart(SavedParts(parts)[i])
  {
    if parts != [] {
      SavedPartsCanonical(parts[1..]);
    }
  }

  lemma ContentReadBack(j: Json)
    requires CanonicalContent(j)
    ensures ReadContent(Some(j)).Some? && ContentItem(ReadContent(Some(j)).value) == j
    ensures ReadContent(Some(j)).value == Absent <==> j == Null
  {
    if j.Arr? {
      PartsReadBack(j.items);
    }
  }

  /** Where the fields of a canonical message are found. */
  lemma MessageFields(read: CallReader, item: Json)
    requires CanonicalMessage(read, item)
    ensures var fs := item.fields;
            var calls := |fs| > 2 && fs[2].key == "tool_calls";
            var k := if calls then 3 else 2;
            && Find(fs, "role") == Some(fs[0].value) && Find(fs, "content") == Some(fs[1].value)
            && Find(fs, "tool_calls") == (if calls then Some(fs[2].value) else None)
            && Find(fs, "tool_call_id") == if |fs| > k then Some(fs[k].value) else None
  {
    var fs := item.fields;
    FindIs(fs, "role", 0);
    FindIs(fs, "content", 1);
    if |fs| > 2 && fs[2].key == "tool_calls" {
      FindIs(fs, "tool_calls", 2);
      FindIs(fs, "tool_call_id", 3);
    } else {
      FindIs(fs, "tool_calls", |fs|);
      FindIs(fs, "tool_call_id", 2);
    }
  }

  lemma MessageReadBack(read: CallReader, item: Json)
    requires CanonicalMessage(read, item)
    ensures ReadMessage(read, item).Some? && MessageItem(ReadMessage(read, item).value) == item
    ensures !IsCheckpoint(item)
  {
    var fs := item.fields;
    MessageFields(read, item);
    ContentReadBack(fs[1].value);
    var body := ReadMessage(read, item).value;
    assert body.toolCalls.Some? <==> |fs| > 2 && fs[2].key == "tool_calls";
    assert MessageItem(body).fields == fs;
  }

  lemma MessageItemCanonical(read: CallReader, item: Json)
    requires Stable(read) && ReadMessage(read, item).Some?
    ensures CanonicalMessage(read, MessageItem(ReadMessage(read, item).value))
  {
    var body := ReadMessage(read, item).value;
    if body.content.Parts? {
      SavedPartsCanonical(body.content.parts);
    }
  }

  // ---------------------------------------------------------------- the round trip

  ghost predicate AllCanonical(read: CallReader, messages: seq<Bound>) {
    forall k :: 0 <= k < |messages| ==> CanonicalMessage(read, MessageItem(messages[k].body))
  }

  lemma {:induction false} BoundCanonical(read: CallReader, history: seq<Json>)
    requires Stable(read) && Bind(read, history).Some?
    ensures AllCanonical(read, Bind(read, history).value)
  {
    if history != [] {
      BoundCanonical(read, history[..|history| - 1]);
      var item := history[|history| - 1];
      if !IsCheckpoint(item) {
        MessageItemCanonical(read, item);
      }
    }
  }

  /** Whatever is dumped is canonical. */
  lemma {:induction false} DumpCanonical(read: CallReader, messages: seq<Bound>)
    requires AllCanonical(read, messages)
    ensures Canonical(read, Dump(messages))
  {
    if messages != [] {
      var last := messages[|messages| - 1];
      DumpCanonical(read, messages[..|messages| - 1]);
      MessageReadBack(read, MessageItem(last.body));
      if last.after.Some? {
        CheckpointItemCanonical(last.after.value);
      }
      CanonicalAppend(read, Dump(messages[..|messages| - 1]), DumpOne(last));
    }
  }

  lemma CheckpointItemCanonical(id: string)
    ensures IsCheckpoint(CheckpointItem(id)) && CanonicalCheckpoint(CheckpointItem(id))
  {
    FindIs(CheckpointItem(id).fields, "role", 0);
  }

  lemma CanonicalAppend(read: CallReader, a: seq<Json>, b: seq<Json>)
    requires Canonical(read, a) && Canonical(read, b)
    ensures Canonical(read, a + b)
  {
    forall i | 0 <= i < |a + b| ensures CanonicalAt(read, a + b, i) {
      if i < |a| {
        assert CanonicalAt(read, a, i);
      } else {
        assert CanonicalAt(read, b, i - |a|);
      }
    }
  }

  /** Binding a canonical history and dumping it gives it back. */
  lemma {:induction false} RoundTrip(read: CallReader, history: seq<Json>)
    requires Canonical(read, history)
    ensures Restored(read, history)
  {
    if history != [] {
      CanonicalPrefix(read, history);
      RoundTrip(read, history[..|history| - 1]);
      RoundTripStep(read, history[..|history| - 1], history[|history| - 1]);
      assert history == history[..|history| - 1] + [history[|history| - 1]];
    }
  }

  ghost predicate Restored(read: CallReader, history: seq<Json>) {
    var messages := Bind(read, history);
    && messages.Some? && Dump(messages.value) == history && (history != [] ==> messages.value != [])
    && (history != [] && !IsCheckpoint(history[|history| - 1]) ==> messages.value[|messages.value| - 1].after.None?)
  }

  predicate AfterMessage(history: seq<Json>) {
    history != [] && !IsCheckpoint(history[|history| - 1])
  }

  lemma RoundTripStep(read: CallReader, before: seq<Json>, item: Json)
    requires Restored(read, before) && Fits(read, item, AfterMessage(before))
    ensures Restored(read, before + [item])
  {
    RoundTripOne(read, Bind(read, before).value, item);
    assert (before + [item])[..|before|] == before;
  }

  lemma RoundTripOne(read: CallReader, messages: seq<Bound>, item: Json)
    requires messages == [] || messages[|messages| - 1].after.Some? ==> Fits(read, item, false)
    requires Fits(read, item, true)
    ensures BindOne(read, messages, item).Some?
    ensures var longer := BindOne(read, messages, item).value;
            && Dump(longer) == Dump(messages) + [item]
            && longer != [] && (longer[|longer| - 1].after.Some? ==> IsCheckpoint(item))
  {
    if IsCheckpoint(item) {
      CheckpointReadBack(item);
      var before, last, id := messages[..|messages| - 1], messages[|messages| - 1], CheckpointId(item);
      DumpCheckpoint(before, last, id.value);
      assert messages == before + [last] && WithAfter(messages, id) == before + [last.(after := id)];
    } else {
      MessageReadBack(read, item);
      DumpSnoc(messages, Bound(ReadMessage(read, item).value, Flagged(item.fields), None));
    }
  }

  lemma CanonicalPrefix(read: CallReader, history: seq<Json>)
    requires Canonical(read, history) && history != []
    ensures Canonical(read, history[..|history| - 1])
    ensures Fits(read, history[|history| - 1], AfterMessage(history[..|history| - 1]))
  {
    var before := history[..|history| - 1];
    assert CanonicalAt(read, history, |before|);
    assert |before| > 0 ==> before[|before| - 1] == history[|before| - 1];
    forall i | 0 <= i < |before| ensures CanonicalAt(read, before, i) {
      assert CanonicalAt(read, history, i);
    }
  }

  lemma CheckpointReadBack(item: Json)
    requires IsCheckpoint(item) && CanonicalCheckpoint(item)
    ensures CheckpointId(item).Some? && CheckpointItem(CheckpointId(item).value) == item
  {
    var data := item.fields[1].value.fields;
    FindIs(item.fields, "content", 1);
    FindIs(data, "id", 0);
    assert data == [Field("id", Str(CheckpointId(item).value))];
    assert item.fields == CheckpointItem(CheckpointId(item).value).fields;
  }

  lemma DumpCheckpoint(before: seq<Bound>, last: Bound, id: string)
    requires last.after == None
    ensures Dump(before + [last.(after := Some(id))]) == Dump(before + [last]) + [CheckpointItem(id)]
  {
    DumpSnoc(before, last);
    DumpSnoc(before, last.(after := Some(id)));
    Associative(Dump(before), DumpOne(last), [CheckpointItem(id)]);
  }

  lemma DumpSnoc(before: seq<Bound>, last: Bound)
    ensures Dump(before + [last]) == Dump(before) + DumpOne(last)
  {
    assert (before + [last])[..|before|] == before;
  }

  /** Dumping what was bound gives the history back exactly for canonical histories. */
  lemma RoundTripIff(read: CallReader, history: seq<Json>)
    requires Stable(read)
    ensures Canonical(read, history) <==> Bind(read, history).Some? && Dump(Bind(read, history).value) == history
  {
    if Canonical(read, history) {
      RoundTrip(read, history);
    } else if Bind(read, history).Some? {
      BoundCanonical(read, history);
      DumpCanonical(read, Bind(read, history).value);
    }
  }

  /** Loading and saving a second time changes nothing, whatever the history was. */
  lemma DumpBindIdempotent(read: CallReader, history: seq<Json>)
    requires Stable(read) && Bind(read, history).Some?
    ensures var dumped := Dump(Bind(read, history).value);
            Bind(read, dumped).Some? && Dump(Bind(read, dumped).value) == dumped
  {
    BoundCanonical(read, history);
    DumpCanonical(read, Bind(read, history).value);
    RoundTrip(read, Dump(Bind(read, history).value));
  }

  // ---------------------------------------------------------------- stripping

  ghost function Items(messages: seq<Bound>): seq<Json> {
    seq(|messages|, k requires 0 <= k < |messages| => MessageItem(messages[k].body))
  }

  lemma {:induction false} StripAppend(a: seq<Json>, b: seq<Json>)
    ensures Strip(a + b) == Strip(a) + Strip(b)
  {
    if b == [] {
      assert a + b == a;
    } else {
      StripAppend(a, b[..|b| - 1]);
      assert (a + b)[..|a + b| - 1] == a + b[..|b| - 1];
    }
  }

  lemma {:induction false} StripDump(messages: seq<Bound>)
    requires AllRoles(messages)
    ensures Strip(Dump(messages)) == Items(messages)
  {
    if messages != [] {
      var before, last := messages[..|messages| - 1], messages[|messages| - 1];
      assert messages == before + [last];
      StripDump(before);
      StripDumpSnoc(before, last);
    }
  }

  ghost predicate AllRoles(messages: seq<Bound>) {
    forall k :: 0 <= k < |messages| ==> IsRole(messages[k].body.role)
  }

  lemma StripDumpSnoc(before: seq<Bound>, last: Bound)
    requires Strip(Dump(before)) == Items(before) && IsRole(last.body.role)
    ensures Strip(Dump(before + [last])) == Items(before + [last])
  {
    DumpSnoc(before, last);
    StripAppend(Dump(before), DumpOne(last));
    StripDumpOne(last);
    ItemsSnoc(before, last);
  }

  lemma ItemsSnoc(before: seq<Bound>, last: Bound)
    ensures Items(before + [last]) == Items(before) + [MessageItem(last.body)]
  {
  }

  lemma StripDumpOne(message: Bound)
    requires IsRole(message.body.role)
    ensures Strip(DumpOne(message)) == [MessageItem(message.body)]
  {
    var item := MessageItem(message.body);
    FindIs(item.fields, "role", 0);
    assert !IsCheckpoint(item);
    assert Strip([item]) == Strip([]) + [item];
    if message.after.Some? {
      var checkpoint := CheckpointItem(message.after.value);
      FindIs(checkpoint.fields, "role", 0);
      assert [item, checkpoint][..1] == [item];
    }
  }

  /** The bound messages are the validated non-checkpoint items, in order. */
  lemma {:induction false} BoundAreStripped(read: CallReader, history: seq<Json>)
    requires Bind(read, history).Some?
    ensures AreMessagesOf(read, Bind(read, history).value, Strip(history))
  {
    if history != [] {
      var before, item := history[..|history| - 1], history[|history| - 1];
      BoundAreStripped(read, before);
      BoundOneIsStripped(read, Bind(read, before).value, Strip(before), item);
    }
  }

  ghost predicate AreMessagesOf(read: CallReader, messages: seq<Bound>, items: seq<Json>) {
    && |messages| == |items|
    && forall k :: 0 <= k < |items| ==> IsMessageOf(read, messages[k], items[k])
  }

  predicate IsMessageOf(read: CallReader, message: Bound, item: Json) {
    item.Obj? && ReadMessage(read, item) == Some(message.body) && message.noSave == Flagged(item.fields)
  }

  lemma BoundOneIsStripped(read: CallReader, messages: seq<Bound>, items: seq<Json>, item: Json)
    requires AreMessagesOf(read, messages, items) && BindOne(read, messages, item).Some?
    ensures AreMessagesOf(read, BindOne(read, messages, item).value,
                          items + (if IsCheckpoint(item) then [] else [item]))
  {
    if IsCheckpoint(item) && messages != [] {
      var n := |messages| - 1;
      assert IsMessageOf(read, messages[n], items[n]);
    }
  }

  /** Stripping the saved history gives the stripped original exactly when its messages were
      already in canonical form; so in particular when they carry no temporary parts and no extra
      or missing keys. */
  lemma StripDumpBindIff(read: CallReader, history: seq<Json>)
    requires Stable(read) && Bind(read, history).Some?
    ensures var items := Strip(history);
            Strip(Dump(Bind(read, history).value)) == items
            <==> forall k :: 0 <= k < |items| ==> CanonicalMessage(read, items[k])
  {
    var messages, items := Bind(read, history).value, Strip(history);
    BoundAreStripped(read, history);
    StripDump(messages);
    BoundCanonical(read, history);
    if forall k :: 0 <= k < |items| ==> CanonicalMessage(read, items[k]) {
      forall k | 0 <= k < |items| ensures Items(messages)[k] == items[k] {
        MessageReadBack(read, items[k]);
      }
    } else {
      var k :| 0 <= k < |items| && !CanonicalMessage(read, items[k]);
      assert Items(messages)[k] == MessageItem(messages[k].body) != items[k];
    }
  }

  /** A bound message is temporary iff its item is flagged so. */
  lemma BoundFlags(read: CallReader, history: seq<Json>, k: nat)
    requires Bind(read, history).Some? && k < |Strip(history)|
    ensures |Bind(read, history).value| == |Strip(history)|
    ensures Bind(read, history).value[k].noSave <==> Temporary(Strip(history)[k])
  {
    BoundAreStripped(read, history);
    assert IsMessageOf(read, Bind(read, history).value[k], Strip(history)[k]);
    FlaggedIsTemporary(Strip(history)[k]);
  }

  // ---------------------------------------------------------------- what is bound where

  predicate AllCheckpoints(items: seq<Json>) {
    forall i :: 0 <= i < |items| ==> IsCheckpoint(items[i])
  }

  /** The last well-formed id of a run of checkpoints. */
  function LastId(run: seq<Json>): Option<string>
    requires AllCheckpoints(run)
  {
    if run == [] then None
    else
      var id := CheckpointId(run[|run| - 1]);
      if id.Some? then id else LastId(run[..|run| - 1])
  }

  lemma {:induction false} BindRun(read: CallReader, head: seq<Json>, run: seq<Json>)
    requires Bind(read, head).Some? && AllCheckpoints(run)
    requires var messages := Bind(read, head).value; messages != [] && messages[|messages| - 1].after == None
    ensures Bind(read, head + run) == Some(WithAfter(Bind(read, head).value, LastId(run)))
  {
    var messages := Bind(read, head).value;
    if run == [] {
      assert head + run == head;
      assert WithAfter(messages, None) == messages;
    } else {
      var before, item := run[..|run| - 1], run[|run| - 1];
      BindRun(read, head, before);
      WithAfterTwice(messages, LastId(before), CheckpointId(item));
      assert (head + run)[..|head + run| - 1] == head + before;
      assert Bind(read, head + run) == BindOne(read, Bind(read, head + before).value, item);
    }
  }

  lemma WithAfterTwice(messages: seq<Bound>, first: Option<string>, second: Option<string>)
    requires messages != []
    ensures WithAfter(WithAfter(messages, first), second) == WithAfter(messages, second)
  {
  }

  /** Once the next message is there, the earlier ones do not change any more. */
  lemma {:induction false} BindLater(read: CallReader, head: seq<Json>, rest: seq<Json>)
    requires Bind(read, head + rest).Some? && (rest != [] ==> !IsCheckpoint(rest[0]))
    ensures Bind(read, head).Some?
    ensures var messages, longer := Bind(read, head).value, Bind(read, head + rest).value;
            messages <= longer && (rest != [] ==> |longer| > |messages|)
  {
    if rest == [] {
      assert head + rest == head;
    } else {
      assert (head + rest)[..|head + rest| - 1] == head + rest[..|rest| - 1];
      BindLater(read, head, rest[..|rest| - 1]);
    }
  }

  /** Wherever a message stands in the history, it is bound to the last well-formed checkpoint
      between it and the next message, and to none if there is none. */
  lemma BindExact(read: CallReader, head: seq<Json>, item: Json, run: seq<Json>, rest: seq<Json>)
    requires Bind(read, head + [item] + run + rest).Some?
    requires !IsCheckpoint(item) && AllCheckpoints(run) && (rest != [] ==> !IsCheckpoint(rest[0]))
    ensures var messages, k := Bind(read, head + [item] + run + rest).value, |Strip(head)|;
            && k < |messages|
            && IsMessageOf(read, messages[k], item) && messages[k].after == LastId(run)
  {
    BindLater(read, head + [item] + run, rest);
    BindPrefix(read, head + [item], run);
    assert (head + [item])[..|head|] == head;
    BoundAreStripped(read, head);
    BindRun(read, head + [item], run);
  }

  lemma {:induction false} BindPrefix(read: CallReader, head: seq<Json>, more: seq<Json>)
    requires Bind(read, head + more).Some?
    ensures Bind(read, head).Some?
  {
    if more == [] {
      assert head + more == head;
    } else {
      assert (head + more)[..|head + more| - 1] == head + more[..|more| - 1];
      BindPrefix(read, head, more[..|more| - 1]);
    }
  }

  // ---------------------------------------------------------------- the saved history, from the JSON alone

  ghost predicate IsText(v: Option<Json>) {
    v.Some? && v.value.Str?
  }

  ghost predicate IsNothing(v: Option<Json>) {
    v.None? || v.value == Null
  }

  ghost function OrNull(v: Option<Json>): Json {
    if v.Some? then v.value else Null
  }

  ghost predicate MediaLoads(v: Option<Json>) {
    && v.Some? && v.value.Obj?
    && IsText(Find(v.value.fields, "url"))
    && (IsNothing(Find(v.value.fields, "id")) || IsText(Find(v.value.fields, "id")))
  }

  /** The content parts that validate. */
  ghost predicate PartLoads(part: Json) {
    && part.Obj?
    && var fs := part.fields;
    || (Find(fs, "type") == Some(Str("text")) && IsText(Find(fs, "text")))
    || (Find(fs, "type") == Some(Str("think")) && IsText(Find(fs, "think")) &&
        (IsNothing(Find(fs, "encrypted")) || IsText(Find(fs, "encrypted"))))
    || (Find(fs, "type") == Some(Str("image_url")) && MediaLoads(Find(fs, "image_url")))
    || (Find(fs, "type") == Some(Str("audio_url")) && MediaLoads(Find(fs, "audio_url")))
  }

  ghost function SavedMedia(v: Option<Json>): Json
    requires MediaLoads(v)
  {
    Obj([Field("url", Find(v.value.fields, "url").value), Field("id", OrNull(Find(v.value.fields, "id")))])
  }

  /** Of a part the fields of its type are saved, a missing one as null. */
  ghost function SavedPart(part: Json): Json
    requires PartLoads(part)
  {
    var fs := part.fields;
    if Find(fs, "type") == Some(Str("text")) then
      Obj([Field("type", Str("text")), Field("text", Find(fs, "text").value)])
    else if Find(fs, "type") == Some(Str("think")) then
      Obj([Field("type", Str("think")), Field("think", Find(fs, "think").value),
           Field("encrypted", OrNull(Find(fs, "encrypted")))])
    else if Find(fs, "type") == Some(Str("image_url")) then
      Obj([Field("type", Str("image_url")), Field("image_url", SavedMedia(Find(fs, "image_url")))])
    else Obj([Field("type", Str("audio_url")), Field("audio_url", SavedMedia(Find(fs, "audio_url")))])
  }

  /** A part is temporary if "_no_save" is there and neither null, false, 0, "", [] nor {}. */
  ghost predicate Temporary(part: Json) {
    && part.Obj?
    && var flag := Find(part.fields, "_no_save");
       flag.Some? && flag.value != Null && flag.value != Bool(false) && flag.value != Num(0.0) &&
       flag.value != Str("") && flag.value != Arr([]) && flag.value != Obj([])
  }

  ghost function Lasting(parts: seq<Json>): seq<Json> {
    if parts == [] then [] else (if Temporary(parts[0]) then [] else [parts[0]]) + Lasting(parts[1..])
  }

  ghost predicate AllLoad(parts: seq<Json>) {
    forall i :: 0 <= i < |parts| ==> PartLoads(parts[i])
  }

  ghost function SavedEach(parts: seq<Json>): seq<Json>
    requires AllLoad(parts)
  {
    seq(|parts|, i requires 0 <= i < |parts| => SavedPart(parts[i]))
  }

  lemma {:induction false} LastingLoads(parts: seq<Json>)
    requires AllLoad(parts)
    ensures AllLoad(Lasting(parts))
  {
    if parts != [] {
      assert PartLoads(parts[0]);
      assert AllLoad(parts[1..]) by {
        forall i | 0 <= i < |parts[1..]| ensures PartLoads(parts[1..][i]) {
          assert PartLoads(parts[i + 1]);
        }
      }
      LastingLoads(parts[1..]);
    }
  }

  ghost predicate ContentLoads(content: Option<Json>) {
    IsNothing(content) || content.value.Str? || (content.value.Arr? && AllLoad(content.value.items))
  }

  /** The items that validate, as messages. */
  ghost predicate ItemLoads(read: CallReader, item: Json) {
    && item.Obj?
    && var role, content := Find(item.fields, "role"), Find(item.fields, "content");
    var calls, id := Find(item.fields, "tool_calls"), Find(item.fields, "tool_call_id");
    && role in {Some(Str("system")), Some(Str("user")), Some(Str("assistant")), Some(Str("tool"))}
    && ContentLoads(content)
    && (IsNothing(calls) || read(calls.value).Some?)
    && (IsNothing(id) || IsText(id))
    && (IsNothing(content) ==> role == Some(Str("assistant")) && !IsNothing(calls))
  }

  ghost function SavedContent(content: Option<Json>): Json
    requires ContentLoads(content)
  {
    if IsNothing(content) then Null
    else if content.value.Str? then content.value
    else
      LastingLoads(content.value.items);
      Arr(SavedEach(Lasting(content.value.items)))
  }

  /** What is saved of an item: its role, its content without the temporary parts, and the tool
      fields that are not null. */
  ghost function SavedItem(read: CallReader, item: Json): Json
    requires ItemLoads(read, item)
  {
    var calls, id := Find(item.fields, "tool_calls"), Find(item.fields, "tool_call_id");
    Obj([Field("role", Find(item.fields, "role").value), Field("content", SavedContent(Find(item.fields, "content")))]
        + (if IsNothing(calls) then [] else [Field("tool_calls", read(calls.value).value)])
        + (if IsNothing(id) then [] else [Field("tool_call_id", id.value)]))
  }

  /** The id of a checkpoint, if it is a string. */
  ghost function IdOf(item: Json): Option<Json>
    requires item.Obj?
  {
    var content := Find(item.fields, "content");
    if content.Some? && content.value.Obj? && IsText(Find(content.value.fields, "id"))
    then Find(content.value.fields, "id") else None
  }

  /** A checkpoint takes the place of the one just before it; with no message before it, or without
      an id, it is dropped. */
  ghost function SavedWith(saved: seq<Json>, item: Json): seq<Json>
    requires item.Obj?
  {
    var id := IdOf(item);
    if id.None? || saved == [] then saved
    else
      var checkpoint := Obj([Field("role", Str("_checkpoint")), Field("content", Obj([Field("id", id.value)]))]);
      (if IsCheckpoint(saved[|saved| - 1]) then saved[..|saved| - 1] else saved) + [checkpoint]
  }

  ghost predicate HistoryLoads(read: CallReader, history: seq<Json>) {
    forall i :: 0 <= i < |history| ==> IsCheckpoint(history[i]) || ItemLoads(read, history[i])
  }

  /** The history that is saved after loading, item by item. */
  ghost function SavedHistory(read: CallReader, history: seq<Json>): seq<Json>
    requires HistoryLoads(read, history)
  {
    if history == [] then []
    else
      var before, item := history[..|history| - 1], history[|history| - 1];
      if IsCheckpoint(item) then SavedWith(SavedHistory(read, before), item)
      else SavedHistory(read, before) + [SavedItem(read, item)]
  }

  lemma ReadStringIff(fs: Fields, key: string)
    ensures ReadString(fs, key).Some? <==> IsText(Find(fs, key))
    ensures IsText(Find(fs, key)) ==> Str(ReadString(fs, key).value) == Find(fs, key).value
  {
  }

  lemma ReadOptionalIff(fs: Fields, key: string)
    ensures ReadOptional(fs, key).Some? <==> IsNothing(Find(fs, key)) || IsText(Find(fs, key))
    ensures ReadOptional(fs, key).Some? ==> OptionalItem(ReadOptional(fs, key).value) == OrNull(Find(fs, key))
  {
  }

  lemma FlaggedIsTemporary(item: Json)
    requires item.Obj?
    ensures Flagged(item.fields) <==> Temporary(item)
  {
  }

  lemma MediaSaved(v: Option<Json>)
    ensures MediaLoads(v) <==>
            v.Some? && v.value.Obj? && ReadString(v.value.fields, "url").Some? &&
            ReadOptional(v.value.fields, "id").Some?
    ensures MediaLoads(v) ==>
              MediaItem(ReadString(v.value.fields, "url").value, ReadOptional(v.value.fields, "id").value) ==
              SavedMedia(v)
  {
    if v.Some? && v.value.Obj? {
      ReadStringIff(v.value.fields, "url");
      ReadOptionalIff(v.value.fields, "id");
    }
  }

  lemma BodySaved(part: Json)
    requires part.Obj?
    ensures ReadBody(part.fields).Some? <==> PartLoads(part)
    ensures PartLoads(part) ==> PartItem(ReadBody(part.fields).value) == SavedPart(part)
  {
    var fs := part.fields;
    match ReadString(fs, "type")
    case Some("text") => ReadStringIff(fs, "text");
    case Some("think") =>
      ReadStringIff(fs, "think");
      ReadOptionalIff(fs, "encrypted");
    case Some("image_url") => MediaSaved(Find(fs, "image_url"));
    case Some("audio_url") => MediaSaved(Find(fs, "audio_url"));
    case _ =>
  }

  lemma PartSaved(part: Json)
    ensures ReadPart(part).Some? <==> PartLoads(part)
    ensures PartLoads(part) ==>
              PartItem(ReadPart(part).value.body) == SavedPart(part) &&
              (ReadPart(part).value.noSave <==> Temporary(part))
  {
    if part.Obj? {
      BodySaved(part);
      FlaggedIsTemporary(part);
    }
  }

  lemma {:induction false} PartsSaved(items: seq<Json>)
    ensures ReadParts(items).Some? <==> AllLoad(items)
    ensures AllLoad(items) ==>
              AllLoad(Lasting(items)) && SavedParts(ReadParts(items).value) == SavedEach(Lasting(items))
  {
    if items != [] {
      PartSaved(items[0]);
      PartsSaved(items[1..]);
      AllLoadCons(items);
      if AllLoad(items) {
        LastingLoads(items);
        var first, rest := ReadPart(items[0]).value, ReadParts(items[1..]).value;
        assert ([first] + rest)[1..] == rest;
      }
    }
  }

  lemma AllLoadCons(items: seq<Json>)
    requires items != []
    ensures AllLoad(items) <==> PartLoads(items[0]) && AllLoad(items[1..])
  {
    if PartLoads(items[0]) && AllLoad(items[1..]) {
      forall i | 0 <= i < |items| ensures PartLoads(items[i]) {
        assert i == 0 || items[i] == items[1..][i - 1];
      }
    }
  }

  lemma ContentSaved(content: Option<Json>)
    ensures ReadContent(content).Some? <==> ContentLoads(content)
    ensures ContentLoads(content) ==>
              ContentItem(ReadContent(content).value) == SavedContent(content) &&
              (ReadContent(content).value == Absent <==> IsNothing(content))
  {
    if content.Some? && content.value.Arr? {
      PartsSaved(content.value.items);
    }
  }

  /** An item loads, and is saved, as its fields say. */
  lemma ItemSaved(read: CallReader, item: Json)
    ensures ReadMessage(read, item).Some? <==> ItemLoads(read, item)
    ensures ItemLoads(read, item) ==> MessageItem(ReadMessage(read, item).value) == SavedItem(read, item)
  {
    if item.Obj? {
      ReadStringIff(item.fields, "role");
      ReadOptionalIff(item.fields, "tool_call_id");
      ContentSaved(Find(item.fields, "content"));
    }
  }

  lemma LoadsSnoc(read: CallReader, history: seq<Json>)
    requires history != []
    ensures HistoryLoads(read, history) <==>
            HistoryLoads(read, history[..|history| - 1]) &&
            (IsCheckpoint(history[|history| - 1]) || ItemLoads(read, history[|history| - 1]))
  {
    var before := history[..|history| - 1];
    if HistoryLoads(read, history) {
      forall i | 0 <= i < |before| ensures IsCheckpoint(before[i]) || ItemLoads(read, before[i]) {
        assert before[i] == history[i];
      }
    }
    if HistoryLoads(read, before) {
      forall i | 0 <= i < |before| ensures IsCheckpoint(history[i]) || ItemLoads(read, history[i]) {
        assert before[i] == history[i];
      }
    }
  }

  /** A history loads iff every item but the checkpoints does; and what is then dumped is the saved
      history, whatever order, additional keys and flags the items have. */
  lemma {:induction false} DumpIsSavedHistory(read: CallReader, history: seq<Json>)
    ensures Bind(read, history).Some? <==> HistoryLoads(read, history)
    ensures HistoryLoads(read, history) ==>
              Dump(Bind(read, history).value) == SavedHistory(read, history) &&
              AllRoles(Bind(read, history).value)
  {
    if history != [] {
      var before, item := history[..|history| - 1], history[|history| - 1];
      DumpIsSavedHistory(read, before);
      LoadsSnoc(read, history);
      if Bind(read, before).Some? {
        var messages := Bind(read, before).value;
        if IsCheckpoint(item) {
          DumpReplaces(messages, item);
        } else {
          ItemSaved(read, item);
          if ItemLoads(read, item) {
            DumpSnoc(messages, Bound(ReadMessage(read, item).value, Flagged(item.fields), None));
          }
        }
      }
    }
  }

  lemma IdIsRead(item: Json)
    requires IsCheckpoint(item)
    ensures IdOf(item).Some? <==> CheckpointId(item).Some?
    ensures CheckpointId(item).Some? ==> IdOf(item).value == Str(CheckpointId(item).value)
  {
  }

  lemma DumpReplaces(messages: seq<Bound>, item: Json)
    requires AllRoles(messages) && IsCheckpoint(item)
    ensures var id := CheckpointId(item);
            var after := if id.Some? && messages != [] then WithAfter(messages, id) else messages;
            Dump(after) == SavedWith(Dump(messages), item) && AllRoles(after)
  {
    var id := CheckpointId(item);
    IdIsRead(item);
    if id.Some? && messages != [] {
      var before, last := messages[..|messages| - 1], messages[|messages| - 1];
      assert messages == before + [last] && WithAfter(messages, id) == before + [last.(after := id)];
      DumpSnoc(before, last);
      DumpSnoc(before, last.(after := id));
      ReplacesLast(Dump(before), last, id.value);
    } else if messages == [] {
      assert Dump(messages) == [];
    }
  }

  lemma ReplacesLast(front: seq<Json>, last: Bound, id: string)
    requires IsRole(last.body.role)
    ensures var saved := front + DumpOne(last);
            front + DumpOne(last.(after := Some(id)))
            == (if IsCheckpoint(saved[|saved| - 1]) then saved[..|saved| - 1] else saved) + [CheckpointItem(id)]
  {
    var item := MessageItem(last.body);
    FindIs(item.fields, "role", 0);
    assert !IsCheckpoint(item);
    if last.after.Some? {
      var checkpoint := CheckpointItem(last.after.value);
      CheckpointItemCanonical(last.after.value);
      assert (front + [item, checkpoint])[..|front| + 1] == front + [item];
    }
  }

  // ---------------------------------------------------------------- temporary parts

  /** The item without the temporary parts of its content. */
  ghost function ItemWithoutTemporary(item: Json): Json {
    if item.Obj? && Find(item.fields, "content").Some? && Find(item.fields, "content").value.Arr?
    then Obj(Put(item.fields, "content", Arr(Lasting(Find(item.fields, "content").value.items))))
    else item
  }

  ghost function WithoutTemporary(history: seq<Json>): seq<Json> {
    seq(|history|, i requires 0 <= i < |history| => ItemWithoutTemporary(history[i]))
  }

  lemma {:induction false} LastingTwice(parts: seq<Json>)
    ensures Lasting(Lasting(parts)) == Lasting(parts)
  {
    if parts != [] {
      LastingTwice(parts[1..]);
      var kept, rest := Lasting(parts), Lasting(parts[1..]);
      if Temporary(parts[0]) {
        assert kept == [] + rest == rest;
      } else {
        assert kept == [parts[0]] + rest && kept[1..] == rest;
      }
    }
  }

  lemma ItemSavedWithout(read: CallReader, item: Json)
    ensures IsCheckpoint(ItemWithoutTemporary(item)) <==> IsCheckpoint(item)
    ensures IsCheckpoint(item) ==> IdOf(ItemWithoutTemporary(item)) == IdOf(item)
    ensures ItemLoads(read, item) ==>
              ItemLoads(read, ItemWithoutTemporary(item)) &&
              SavedItem(read, ItemWithoutTemporary(item)) == SavedItem(read, item)
  {
    if item.Obj? && Find(item.fields, "content").Some? && Find(item.fields, "content").value.Arr? {
      var parts := Find(item.fields, "content").value.items;
      forall key ensures Find(Put(item.fields, "content", Arr(Lasting(parts))), key)
                      == if key == "content" then Some(Arr(Lasting(parts))) else Find(item.fields, key) {
        PutFind(item.fields, "content", Arr(Lasting(parts)), key);
      }
      ContentWithout(parts);
    }
  }

  lemma ContentWithout(parts: seq<Json>)
    ensures ContentLoads(Some(Arr(parts))) ==>
              ContentLoads(Some(Arr(Lasting(parts)))) &&
              SavedContent(Some(Arr(Lasting(parts)))) == SavedContent(Some(Arr(parts)))
  {
    LastingTwice(parts);
    if AllLoad(parts) {
      LastingLoads(parts);
    }
  }

  lemma {:induction false} SavedWithout(read: CallReader, history: seq<Json>)
    requires HistoryLoads(read, history)
    ensures HistoryLoads(read, WithoutTemporary(history))
    ensures SavedHistory(read, WithoutTemporary(history)) == SavedHistory(read, history)
  {
    var without := WithoutTemporary(history);
    if history != [] {
      var before, item := history[..|history| - 1], history[|history| - 1];
      assert without[..|without| - 1] == WithoutTemporary(before);
      LoadsSnoc(read, history);
      LoadsSnoc(read, without);
      SavedWithout(read, before);
      ItemSavedWithout(read, item);
    }
  }

  /** Temporary parts are not saved: a history that loads is saved as if they had been deleted from
      its content before, and as many parts are saved of an item as are not temporary. */
  lemma TemporaryPartsAreDropped(read: CallReader, history: seq<Json>)
    requires Bind(read, history).Some?
    ensures Bind(read, WithoutTemporary(history)).Some?
    ensures Dump(Bind(read, history).value) == Dump(Bind(read, WithoutTemporary(history)).value)
  {
    DumpIsSavedHistory(read, history);
    SavedWithout(read, history);
    DumpIsSavedHistory(read, WithoutTemporary(history));
  }

  lemma SavedPartsCount(read: CallReader, item: Json)
    requires ReadMessage(read, item).Some?
    requires Find(item.fields, "content").Some? && Find(item.fields, "content").value.Arr?
    ensures var saved := Find(MessageItem(ReadMessage(read, item).value).fields, "content");
            && saved.Some? && saved.value.Arr?
            && |saved.value.items| == |Lasting(Find(item.fields, "content").value.items)|
  {
    ItemSaved(read, item);
    FindIs(SavedItem(read, item).fields, "content", 1);
  }
}
