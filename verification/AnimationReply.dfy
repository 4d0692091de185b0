/** The replies of the animation protocol and their text form. */
module AnimationReplies {
  import opened Basics

  datatype ProtocolError = InvalidValue | InvalidField | DuplicateField | MissingField

  const BEL: char := '\U{07}'
  const C1_OSC: char := '\U{9D}'
  const BACKSLASH: char := '\\'

  const STATE_REPLY_KEY: Bytes := "mr_crabs_animation_state"
  const SAVED_REPLY_KEY: Bytes := "mr_crabs_animation_saved"

  datatype OscTerminator = Bell | St

  function TerminatorBytes(t: OscTerminator): Bytes {
    match t
    case Bell => [BEL]
    case St => [ESC, BACKSLASH]
  }

  datatype TextAnimationChoice = NoText | StreamingText | TypewriterText

  datatype OverlaySource = Override | Global

  datatype SaveErrorCode = Invalid | NoPath | Io | Json | Reload

  datatype AnimationSnapshot = AnimationSnapshot(
    text: TextAnimationChoice, cursorTrail: bool,
    textSource: OverlaySource, trailSource: OverlaySource, saveAvailable: bool)

  /** `Saved(None)` reports success. */
  datatype AnimationReply = Snapshot(snapshot: AnimationSnapshot) | Saved(error: Option<SaveErrorCode>)

  // ----- single values -----

  function TextStr(t: TextAnimationChoice): Bytes {
    match t
    case NoText => "none"
    case StreamingText => "streaming"
    case TypewriterText => "typewriter"
  }

  function ParseText(s: Bytes): Result<TextAnimationChoice, ProtocolError> {
    if s == "none" then Ok(NoText)
    else if s == "streaming" then Ok(StreamingText)
    else if s == "typewriter" then Ok(TypewriterText)
    else Err(InvalidValue)
  }

  function SourceStr(s: OverlaySource): Bytes {
    match s
    case Override => "o"
    case Global => "g"
  }

  function ParseSource(s: Bytes): Result<OverlaySource, ProtocolError> {
    if s == "o" then Ok(Override) else if s == "g" then Ok(Global) else Err(InvalidValue)
  }

  function FlagStr(b: bool): Bytes {
    if b then "1" else "0"
  }

  function ParseFlag(s: Bytes): Result<bool, ProtocolError> {
    if s == "0" then Ok(false) else if s == "1" then Ok(true) else Err(InvalidValue)
  }

  function CodeStr(c: SaveErrorCode): Bytes {
    match c
    case Invalid => "invalid"
    case NoPath => "no-path"
    case Io => "io"
    case Json => "json"
    case Reload => "reload"
  }

  function ParseCode(s: Bytes): Result<SaveErrorCode, ProtocolError> {
    if s == "invalid" then Ok(Invalid)
    else if s == "no-path" then Ok(NoPath)
    else if s == "io" then Ok(Io)
    else if s == "json" then Ok(Json)
    else if s == "reload" then Ok(Reload)
    else Err(InvalidValue)
  }

  // ----- splitting -----

  /** The first position of a byte, or the length. */
  function IndexOf(s: Bytes, c: char): (i: nat)
    ensures i <= |s| && c !in s[..i] && (i < |s| ==> s[i] == c)
  {
    if s == [] || s[0] == c then 0
    else
      var i := IndexOf(s[1..], c);
      assert s[..i + 1] == [s[0]] + s[1..][..i];
      i + 1
  }

  /** The pieces between separators; there is always at least one. */
  function Split(s: Bytes, sep: char): (r: seq<Bytes>)
    ensures r != []
    decreases |s|
  {
    var i := IndexOf(s, sep);
    if i == |s| then [s] else [s[..i]] + Split(s[i + 1..], sep)
  }

  function Join(pieces: seq<Bytes>, sep: char): Bytes
    requires pieces != []
  {
    if |pieces| == 1 then pieces[0] else pieces[0] + [sep] + Join(pieces[1..], sep)
  }

  datatype Field = Field(key: Bytes, value: Bytes)

  /** Split at the first separator, if there is one. */
  function SplitOnce(s: Bytes, sep: char): Option<Field> {
    var i := IndexOf(s, sep);
    if i == |s| then None else Some(Field(s[..i], s[i + 1..]))
  }

  function FieldsOf(pieces: seq<Bytes>): Result<seq<Field>, ProtocolError> {
    if pieces == [] then Ok([])
    else
      var first := SplitOnce(pieces[0], '=');
      if first.None? then Err(InvalidField)
      else
        var rest :- FieldsOf(pieces[1..]);
        Ok([first.value] + rest)
  }

  /** The keys from position i on are the expected ones, in order. */
  function CheckKeys(fields: seq<Field>, expected: seq<Bytes>, i: nat): (r: Result<seq<Field>, ProtocolError>)
    requires i <= |fields| == |expected|
    ensures r.Ok? <==> forall j :: i <= j < |fields| ==> fields[j].key == expected[j]
    ensures r.Ok? ==> r.value == fields
    decreases |fields| - i
  {
    if i == |fields| then Ok(fields)
    else if fields[i].key != expected[i] then
      Err(if fields[i].key in expected[..i] then DuplicateField else InvalidField)
    else CheckKeys(fields, expected, i + 1)
  }

  function StrictFields(input: Bytes, expected: seq<Bytes>): (r: Result<seq<Field>, ProtocolError>)
    ensures r.Ok? ==> |r.value| == |expected| && forall j :: 0 <= j < |expected| ==> r.value[j].key == expected[j]
  {
    var fields :- FieldsOf(Split(input, ';'));
    if |fields| != |expected| then Err(MissingField) else CheckKeys(fields, expected, 0)
  }

  // ----- replies -----

  const SNAPSHOT_KEYS: seq<Bytes> := ["text", "trail", "text_src", "trail_src", "save"]

  function SnapshotValues(s: AnimationSnapshot): seq<Bytes> {
    [TextStr(s.text), FlagStr(s.cursorTrail), SourceStr(s.textSource), SourceStr(s.trailSource), FlagStr(s.saveAvailable)]
  }

  function EncodeValue(r: AnimationReply): Bytes {
    match r
    case Snapshot(s) =>
      "v1;text=" + TextStr(s.text) + ";trail=" + FlagStr(s.cursorTrail) + ";text_src=" + SourceStr(s.textSource)
      + ";trail_src=" + SourceStr(s.trailSource) + ";save=" + FlagStr(s.saveAvailable)
    case Saved(None) => "ok"
    case Saved(Some(code)) => "err;code=" + CodeStr(code)
  }

  function ParseSnapshot(rest: Bytes): Result<AnimationReply, ProtocolError> {
    var fields :- StrictFields(rest, SNAPSHOT_KEYS);
    var text :- ParseText(fields[0].value);
    var trail :- ParseFlag(fields[1].value);
    var save :- ParseFlag(fields[4].value);
    var textSource :- ParseSource(fields[2].value);
    var trailSource :- ParseSource(fields[3].value);
    Ok(Snapshot(AnimationSnapshot(text, trail, textSource, trailSource, save)))
  }

  function ParsePayload(payload: Bytes): Result<AnimationReply, ProtocolError> {
    if "v1;" <= payload then ParseSnapshot(payload[3..])
    else if payload == "ok" then Ok(Saved(None))
    else if "err;code=" <= payload then
      var code :- ParseCode(payload[9..]);
      Ok(Saved(Some(code)))
    else Err(InvalidValue)
  }

  function ReplyKey(r: AnimationReply): Bytes {
    if r.Snapshot? then STATE_REPLY_KEY else SAVED_REPLY_KEY
  }

  function EncodeReply(r: AnimationReply, t: OscTerminator): Bytes {
    [ESC, ']'] + "1337;" + ReplyKey(r) + "=" + EncodeValue(r) + TerminatorBytes(t)
  }
}
