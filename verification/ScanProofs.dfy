/** What the scanner does with whole inputs. */
module ScanProofs {
  import opened Basics
  import opened AnimationReplies
  import opened ReplyProofs
  import opened ReplyScanning
  import opened Utf8

  // ----- splitting the input -----

  /** How the input is cut into pushes makes no difference. */
  lemma {:induction false} PushesCompose(s: Scanner, a: Bytes, b: Bytes)
    requires s.Valid()
    ensures PushAll(PushAll(s, a), b) == PushAll(s, a + b)
    decreases |a|
  {
    if a == [] {
      assert a + b == b;
    } else {
      assert (a + b)[1..] == a[1..] + b;
      PushByteKeepsValid(s, a[0]);
      PushesCompose(s.PushByte(a[0]), a[1..], b);
    }
  }

  // ----- accepted frames -----

  /** Printable ASCII. */
  ghost predicate Printable(s: Bytes) {
    forall i :: 0 <= i < |s| ==> 0x20 <= s[i] as int < 0x7F
  }

  lemma {:induction false} PrintableIsUtf8(s: Bytes)
    requires Printable(s)
    ensures ValidUtf8(s)
    decreases |s|
  {
    if s != [] {
      PrintableIsUtf8(s[1..]);
    }
  }

  lemma {:induction false} PrintableConcat(a: Bytes, b: Bytes)
    requires Printable(a) && Printable(b)
    ensures Printable(a + b)
  {
  }

  lemma {:induction false} WordsArePrintable(text: TextAnimationChoice, source: OverlaySource, flag: bool)
    ensures Printable(TextStr(text)) && Printable(SourceStr(source)) && Printable(FlagStr(flag))
  {
  }

  lemma {:induction false} LabelsArePrintable()
    ensures Printable("v1;text=") && Printable(";trail=") && Printable(";text_src=")
    ensures Printable(";trail_src=") && Printable(";save=")
  {
  }

  lemma {:induction false} PairsArePrintable(a: Bytes, b: Bytes, c: Bytes)
    requires Printable(a) && Printable(b) && Printable(c)
    ensures Printable(a + b + c)
  {
    PrintableConcat(a, b);
    PrintableConcat(a + b, c);
  }

  lemma {:induction false} ValuesArePrintable(r: AnimationReply)
    ensures Printable(EncodeValue(r))
  {
    match r {
      case Snapshot(s) =>
        WordsArePrintable(s.text, s.textSource, s.cursorTrail);
        WordsArePrintable(s.text, s.trailSource, s.saveAvailable);
        LabelsArePrintable();
        var q1 := "v1;text=" + TextStr(s.text);
        PrintableConcat("v1;text=", TextStr(s.text));
        var q2 := q1 + ";trail=" + FlagStr(s.cursorTrail);
        PairsArePrintable(q1, ";trail=", FlagStr(s.cursorTrail));
        var q3 := q2 + ";text_src=" + SourceStr(s.textSource);
        PairsArePrintable(q2, ";text_src=", SourceStr(s.textSource));
        var q4 := q3 + ";trail_src=" + SourceStr(s.trailSource);
        PairsArePrintable(q3, ";trail_src=", SourceStr(s.trailSource));
        PairsArePrintable(q4, ";save=", FlagStr(s.saveAvailable));
      case Saved(None) =>
      case Saved(Some(code)) =>
        PrintableConcat("err;code=", CodeStr(code));
    }
  }

  /** One of the two introducers and one of the two keys around an encoded value. */
  ghost predicate IsReplyFrame(full: Bytes, prefix: Bytes, key: Bytes, r: AnimationReply, t: OscTerminator) {
    && (prefix == LONG_PREFIX || prefix == SHORT_PREFIX)
    && (key == STATE_REPLY_KEY || key == SAVED_REPLY_KEY)
    && full == prefix + Pair(key, EncodeValue(r)) + TerminatorBytes(t)
  }

  lemma {:induction false} KeysArePlain(key: Bytes)
    requires key == STATE_REPLY_KEY || key == SAVED_REPLY_KEY
    ensures Printable(key) && '=' !in key && |key| == 24
  {
  }

  lemma {:induction false} FrameParts(full: Bytes, prefix: Bytes, body: Bytes, t: OscTerminator, end: nat)
    requires prefix == LONG_PREFIX || prefix == SHORT_PREFIX
    requires full == prefix + body + TerminatorBytes(t) && end == |full| - |TerminatorBytes(t)|
    ensures PrefixLen(full) == |prefix| && full[|prefix|..end] == body && EndsWith(full, TerminatorBytes(t))
  {
    assert full[..|prefix|] == prefix;
    assert full[0] == prefix[0];
    assert full[end..] == TerminatorBytes(t);
  }

  /** The body of a candidate, where the payload is looked for. */
  lemma {:induction false} PayloadInBody(full: Bytes, t: OscTerminator, n: nat, end: nat, body: Bytes)
    requires EndsWith(full, TerminatorBytes(t)) && n == PrefixLen(full) && end == |full| - |TerminatorBytes(t)|
    requires n <= end && body == full[n..end]
    ensures CandidatePayload(full, t) ==
            if n == 0 || !ValidUtf8(body) then None
            else
              var field := SplitOnce(body, '=');
              if field.Some? && (field.value.key == STATE_REPLY_KEY || field.value.key == SAVED_REPLY_KEY) then field else None
  {
  }

  lemma {:induction false} BodyIsText(key: Bytes, r: AnimationReply, value: Bytes, body: Bytes)
    requires (key == STATE_REPLY_KEY || key == SAVED_REPLY_KEY) && value == EncodeValue(r) && body == Pair(key, value)
    ensures ValidUtf8(body) && SplitOnce(body, '=') == Some(Field(key, value))
  {
    KeysArePlain(key);
    ValuesArePrintable(r);
    PairsArePrintable(key, ['='], value);
    PrintableIsUtf8(body);
    SplitOnceIs(key, value);
  }

  /** Every well-formed frame is accepted, with either introducer, key and terminator. */
  lemma {:induction false} FramesAreAccepted(full: Bytes, prefix: Bytes, key: Bytes, r: AnimationReply, t: OscTerminator)
    requires IsReplyFrame(full, prefix, key, r, t)
    ensures EndsWith(full, TerminatorBytes(t)) && ReplyOf(full, t) == Some(r)
  {
    var value, end := EncodeValue(r), |full| - |TerminatorBytes(t)|;
    var body := Pair(key, value);
    FrameParts(full, prefix, body, t, end);
    PayloadInBody(full, t, |prefix|, end, body);
    BodyIsText(key, r, value, body);
    PayloadIsCanonical(value, r);
  }

  lemma {:induction false} PrefixParts(full: Bytes, n: nat, end: nat, body: Bytes)
    requires n == PrefixLen(full) > 0 && n <= end <= |full| && body == full[n..end]
    ensures full == (if n == 7 then LONG_PREFIX else SHORT_PREFIX) + body + full[end..]
  {
    assert full == full[..n] + body + full[end..];
  }

  /** And nothing else is. */
  lemma {:induction false} AcceptedAreFrames(full: Bytes, t: OscTerminator, r: AnimationReply) returns (prefix: Bytes, key: Bytes)
    requires EndsWith(full, TerminatorBytes(t)) && ReplyOf(full, t) == Some(r)
    ensures IsReplyFrame(full, prefix, key, r, t)
  {
    PrefixEndsBeforeTerminator(full, t);
    var n, end := PrefixLen(full), |full| - |TerminatorBytes(t)|;
    var body := full[n..end];
    PayloadInBody(full, t, n, end, body);
    prefix := if n == 7 then LONG_PREFIX else SHORT_PREFIX;
    var field := SplitOnce(body, '=').value;
    key := field.key;
    SplitOnceInverts(body);
    PayloadIsCanonical(field.value, r);
    PrefixParts(full, n, end, body);
  }

  // ----- round trip -----

  /** A plain key, an escaped one, an encoded reply, or any other control string of the same form. */
  datatype Item =
    | Key(byte: char)
    | Escaped(byte: char)
    | Frame(reply: AnimationReply, terminator: OscTerminator)
    | Control(c1: bool, body: Bytes, terminator: OscTerminator)

  function ControlBytes(c1: bool, body: Bytes, t: OscTerminator): Bytes {
    (if c1 then [C1_OSC] else [ESC] + [']']) + body + TerminatorBytes(t)
  }

  lemma {:induction false} ControlEnds(c1: bool, body: Bytes, t: OscTerminator)
    ensures EndsWith(ControlBytes(c1, body, t), TerminatorBytes(t))
  {
    var full, end := ControlBytes(c1, body, t), TerminatorBytes(t);
    assert full[|full| - |end|..] == end;
  }

  /** The reply that a control string carries, if it is one. */
  function ControlReply(c1: bool, body: Bytes, t: OscTerminator): Option<AnimationReply> {
    ControlEnds(c1, body, t);
    ReplyOf(ControlBytes(c1, body, t), t)
  }

  /** The items that can be told apart: a key that opens nothing, and a control string that neither ends
      early nor exceeds 4096 bytes. */
  ghost predicate IsItem(item: Item) {
    match item
    case Key(b) => b != ESC && b != C1_OSC
    case Escaped(b) => b != ESC && b != C1_OSC && b != ']'
    case Frame(_, _) => true
    case Control(c1, body, t) => ESC !in body && BEL !in body && |ControlBytes(c1, body, t)| <= 4096
  }

  function ItemBytes(item: Item): Bytes {
    match item
    case Key(b) => [b]
    case Escaped(b) => [ESC, b]
    case Frame(r, t) => EncodeReply(r, t)
    case Control(c1, body, t) => ControlBytes(c1, body, t)
  }

  /** Keys are kept as they are, and so is every control string that is no reply. */
  function ItemKeys(item: Item): Bytes {
    match item
    case Key(b) => [b]
    case Escaped(b) => [ESC, b]
    case Frame(_, _) => []
    case Control(c1, body, t) => if ControlReply(c1, body, t).None? then ControlBytes(c1, body, t) else []
  }

  function ItemReplies(item: Item): seq<AnimationReply> {
    match item
    case Frame(r, _) => [r]
    case Control(c1, body, t) => if ControlReply(c1, body, t).Some? then [ControlReply(c1, body, t).value] else []
    case _ => []
  }

  /** The parts of a sequence that f picks, one after the other. */
  function Collect<A, T>(f: A -> seq<T>, items: seq<A>): seq<T> {
    if items == [] then [] else f(items[0]) + Collect(f, items[1..])
  }

  lemma {:induction false} CollectConcat<A, T>(f: A -> seq<T>, a: seq<A>, b: seq<A>)
    ensures Collect(f, a + b) == Collect(f, a) + Collect(f, b)
    decreases |a|
  {
    if a == [] {
      assert a + b == b;
    } else {
      assert (a + b)[1..] == a[1..] + b;
      CollectConcat(f, a[1..], b);
      Associative(f(a[0]), Collect(f, a[1..]), Collect(f, b));
    }
  }

  function Stream(items: seq<Item>): Bytes {
    Collect(ItemBytes, items)
  }

  function KeysOf(items: seq<Item>): Bytes {
    Collect(ItemKeys, items)
  }

  function RepliesOf(items: seq<Item>): seq<AnimationReply> {
    Collect(ItemReplies, items)
  }

  /** Ordinary input inside a control string only lengthens the candidate. */
  lemma {:induction false} CandidateGrows(s: Scanner, body: Bytes)
    requires s.Valid() && !s.overflowed && s.state.Osc? && |s.candidate| + |body| <= MAX_CANDIDATE
    requires forall i :: 0 <= i < |body| ==> body[i] != BEL && body[i] != ESC
    ensures PushAll(s, body) == s.(candidate := s.candidate + body)
    decreases |body|
  {
    if body == [] {
      assert s.candidate + body == s.candidate;
    } else {
      PushByteKeepsValid(s, body[0]);
      CandidateGrows(s.PushByte(body[0]), body[1..]);
      assert s.candidate + [body[0]] + body[1..] == s.candidate + body;
    }
  }

  lemma {:induction false} ValuesAreShort(r: AnimationReply)
    ensures |EncodeValue(r)| <= 64
  {
  }

  /** An encoded reply: introducer, body and terminator. */
  lemma {:induction false} FrameShape(r: AnimationReply, t: OscTerminator, body: Bytes)
    requires body == "1337;" + Pair(ReplyKey(r), EncodeValue(r))
    ensures EncodeReply(r, t) == [ESC] + [']'] + body + TerminatorBytes(t)
    ensures IsReplyFrame(EncodeReply(r, t), LONG_PREFIX, ReplyKey(r), r, t)
    ensures |body| <= 94 && Printable(body)
  {
    var key, value := ReplyKey(r), EncodeValue(r);
    KeysArePlain(key);
    ValuesAreShort(r);
    ValuesArePrintable(r);
    PairsArePrintable(key, ['='], value);
    PrintableConcat("1337;", Pair(key, value));
    FrameText(key, value, TerminatorBytes(t));
  }

  /** A snapshot is sent under the key for the state, the answer to a request to save under its own. */
  lemma {:induction false} RepliesNameTheirKind(r: AnimationReply, t: OscTerminator)
    ensures IsReplyFrame(EncodeReply(r, t), [ESC, ']'] + "1337;",
                         if r.Snapshot? then "mr_crabs_animation_state" else "mr_crabs_animation_saved", r, t)
  {
    FrameShape(r, t, "1337;" + Pair(ReplyKey(r), EncodeValue(r)));
  }

  lemma {:induction false} FrameText(key: Bytes, value: Bytes, end: Bytes)
    ensures [ESC, ']'] + "1337;" + key + "=" + value + end == [ESC] + [']'] + ("1337;" + Pair(key, value)) + end
    ensures [ESC, ']'] + "1337;" + key + "=" + value + end == LONG_PREFIX + Pair(key, value) + end
  {
  }

  lemma {:induction false} PushOne(s: Scanner, b: char)
    requires s.Valid()
    ensures s.PushByte(b).Valid() && PushAll(s, [b]) == s.PushByte(b)
  {
    PushByteKeepsValid(s, b);
  }

  lemma {:induction false} IntroducerOpens(s: Scanner)
    requires s.Valid() && !s.overflowed && s.state.Ground?
    ensures PushAll(s, [ESC] + [']']) == s.(state := Osc, candidate := [ESC, ']'])
  {
    PushOne(s, ESC);
    PushOne(s.PushByte(ESC), ']');
    PushesCompose(s, [ESC], [']']);
  }

  lemma {:induction false} BodyIsHeld(s: Scanner, body: Bytes, input: Bytes)
    requires s.Valid() && !s.overflowed && s.state.Ground? && |body| <= 94 && Printable(body)
    requires input == [ESC] + [']'] + body
    ensures PushAll(s, input) == s.(state := Osc, candidate := input)
  {
    IntroducerOpens(s);
    PushesCompose(s, [ESC] + [']'], body);
    CandidateGrows(s.(state := Osc, candidate := [ESC, ']']), body);
    assert [ESC, ']'] + body == input;
  }

  /** A whole encoded reply, with either terminator, is one more reply and nothing else. */
  lemma {:induction false} ReplyRoundTrip(s: Scanner, r: AnimationReply, t: OscTerminator)
    requires s.Valid() && !s.overflowed && s.state.Ground? && |s.replies| < MAX_REPLIES
    ensures PushAll(s, EncodeReply(r, t)) == s.(replies := s.replies + [r])
  {
    var body := "1337;" + Pair(ReplyKey(r), EncodeValue(r));
    var input, full := [ESC] + [']'] + body, EncodeReply(r, t);
    FrameShape(r, t, body);
    BodyIsHeld(s, body, input);
    PushesCompose(s, input, TerminatorBytes(t));
    TerminatorFinishes(s.(state := Osc, candidate := input), t, full);
    FramesAreAccepted(full, LONG_PREFIX, ReplyKey(r), r, t);
  }

  /** The terminator's bytes finish the candidate. */
  lemma {:induction false} TerminatorFinishes(s: Scanner, t: OscTerminator, full: Bytes)
    requires s.Valid() && !s.overflowed && s.state.Osc? && |full| <= MAX_CANDIDATE
    requires full == s.candidate + TerminatorBytes(t)
    ensures EndsWith(full, TerminatorBytes(t)) && PushAll(s, TerminatorBytes(t)) == s.Finish(full, t)
  {
    assert full[|s.candidate|..] == TerminatorBytes(t);
    match t {
      case Bell => PushOne(s, BEL);
      case St => BackslashFinishes(s, s.(candidate := s.candidate + [ESC], state := OscEsc), full);
    }
  }

  lemma {:induction false} BackslashFinishes(s: Scanner, s1: Scanner, full: Bytes)
    requires s.Valid() && !s.overflowed && s.state.Osc? && |s.candidate| + 2 <= MAX_CANDIDATE
    requires s1 == s.(candidate := s.candidate + [ESC], state := OscEsc)
    requires full == s.candidate + TerminatorBytes(St) && EndsWith(full, TerminatorBytes(St))
    ensures PushAll(s, TerminatorBytes(St)) == s.Finish(full, St)
  {
    PushOne(s, ESC);
    assert s.PushByte(ESC) == s1;
    PushByteKeepsValid(s, ESC);
    PushOne(s1, BACKSLASH);
    PushesCompose(s, [ESC], [BACKSLASH]);
    assert [ESC] + [BACKSLASH] == TerminatorBytes(St);
    assert s1.candidate + [BACKSLASH] == full;
  }

  lemma {:induction false} ControlOpens(s: Scanner, c1: bool, open: Bytes)
    requires s.Valid() && !s.overflowed && s.state.Ground? && open == (if c1 then [C1_OSC] else [ESC] + [']'])
    ensures PushAll(s, open) == s.(state := Osc, candidate := open)
  {
    if c1 {
      PushOne(s, C1_OSC);
    } else {
      IntroducerOpens(s);
    }
  }

  /** A control string is one more reply, or goes unchanged to the keys. */
  lemma {:induction false} ControlPasses(s: Scanner, c1: bool, body: Bytes, t: OscTerminator, full: Bytes)
    requires s.Valid() && !s.overflowed && s.state.Ground? && full == ControlBytes(c1, body, t)
    requires ESC !in body && BEL !in body && |full| <= 4096
    ensures ControlReply(c1, body, t).None? && |s.keyInput| + |full| <= 4096 ==> PushAll(s, full) == s.(keyInput := s.keyInput + full)
    ensures ControlReply(c1, body, t).Some? && |s.replies| < 32 ==>
              PushAll(s, full) == s.(replies := s.replies + [ControlReply(c1, body, t).value])
  {
    var open, end := if c1 then [C1_OSC] else [ESC] + [']'], TerminatorBytes(t);
    var s1, s2 := s.(state := Osc, candidate := open), s.(state := Osc, candidate := open + body);
    ControlEnds(c1, body, t);
    ControlOpens(s, c1, open);
    CandidateGrows(s1, body);
    PushesCompose(s, open, body);
    TerminatorFinishes(s2, t, full);
    PushesCompose(s, open + body, end);
  }

  lemma {:induction false} EscapedPasses(s: Scanner, b: char)
    requires s.Valid() && !s.overflowed && s.state.Ground? && b != ESC && b != C1_OSC && b != ']'
    requires |s.keyInput| + 2 <= 4096
    ensures PushAll(s, [ESC, b]) == s.(keyInput := s.keyInput + [ESC, b])
  {
    PushOne(s, ESC);
    PushOne(s.(state := Esc), b);
    PushesCompose(s, [ESC], [b]);
    assert [ESC] + [b] == [ESC, b];
    assert s.keyInput + [ESC] + [b] == s.keyInput + [ESC, b];
  }

  lemma {:induction false} ItemRoundTrip(s: Scanner, item: Item)
    requires s.Valid() && !s.overflowed && s.state.Ground? && IsItem(item)
    requires |s.keyInput| + |ItemKeys(item)| <= 4096 && |s.replies| + |ItemReplies(item)| <= 32
    ensures PushAll(s, ItemBytes(item)) == s.(keyInput := s.keyInput + ItemKeys(item), replies := s.replies + ItemReplies(item))
  {
    assert s.replies + [] == s.replies && s.keyInput + [] == s.keyInput;
    match item {
      case Key(b) => PushOne(s, b);
      case Escaped(b) => EscapedPasses(s, b);
      case Frame(r, t) => ReplyRoundTrip(s, r, t);
      case Control(c1, body, t) => ControlPasses(s, c1, body, t, ControlBytes(c1, body, t));
    }
  }

  /** Keys, replies and other control strings in any interleaving come out separated, complete and in order,
      as long as the caps allow, and the scanner is back in its ground state. */
  lemma {:induction false} StreamRoundTrip(s: Scanner, items: seq<Item>)
    requires s.Valid() && !s.overflowed && s.state.Ground?
    requires forall i :: 0 <= i < |items| ==> IsItem(items[i])
    requires |s.keyInput| + |KeysOf(items)| <= 4096 && |s.replies| + |RepliesOf(items)| <= 32
    ensures PushAll(s, Stream(items)) == s.(keyInput := s.keyInput + KeysOf(items), replies := s.replies + RepliesOf(items))
    decreases |items|
  {
    if items == [] {
      assert s.keyInput + [] == s.keyInput && s.replies + [] == s.replies;
    } else {
      var item, rest := items[0], items[1..];
      assert forall i :: 0 <= i < |rest| ==> rest[i] == items[i + 1];
      ItemRoundTrip(s, item);
      var s1 := PushAll(s, ItemBytes(item));
      PushesCompose(s, ItemBytes(item), Stream(rest));
      Associative(s.keyInput, ItemKeys(item), KeysOf(rest));
      Associative(s.replies, ItemReplies(item), RepliesOf(rest));
      StreamRoundTrip(s1, rest);
    }
  }

  // ----- conservation -----

  /** What a stretch of input turned out to be. */
  datatype Piece = KeyPiece(bytes: Bytes) | ReplyPiece(bytes: Bytes, reply: AnimationReply)

  function BytesPart(p: Piece): Bytes {
    p.bytes
  }

  function KeyPart(p: Piece): Bytes {
    if p.KeyPiece? then p.bytes else []
  }

  function ReplyPart(p: Piece): seq<AnimationReply> {
    if p.ReplyPiece? then [p.reply] else []
  }

  /** Every reply in the log stands for a frame that says it. */
  ghost predicate Genuine(log: seq<Piece>) {
    forall i :: 0 <= i < |log| && log[i].ReplyPiece? ==>
      exists t :: EndsWith(log[i].bytes, TerminatorBytes(t)) && ReplyOf(log[i].bytes, t) == Some(log[i].reply)
  }

  /** The bytes read but not yet attributed: a held escape or the open candidate. */
  function Held(s: Scanner): Bytes {
    if s.state.Esc? then [ESC] else s.candidate
  }

  function FinishedPiece(full: Bytes, t: OscTerminator): Piece
    requires EndsWith(full, TerminatorBytes(t))
  {
    var reply := ReplyOf(full, t);
    if reply.Some? then ReplyPiece(full, reply.value) else KeyPiece(full)
  }

  /** What a byte completes outside a control string. */
  function GroundPieces(b: char): seq<Piece> {
    if b == ESC || b == C1_OSC then [] else [KeyPiece([b])]
  }

  /** The pieces that one byte completes. */
  function Completed(s: Scanner, b: char): seq<Piece>
    requires s.Valid()
  {
    match s.state
    case Ground => GroundPieces(b)
    case Esc => if b == ']' then [] else [KeyPiece([ESC])] + GroundPieces(b)
    case Osc => if b == BEL then [FinishedPiece(s.candidate + [b], Bell)] else []
    case OscEsc => if b == BACKSLASH then [FinishedPiece(s.candidate + [b], St)] else []
  }

  function CompletedAll(s: Scanner, bytes: Bytes): seq<Piece>
    requires s.Valid()
    decreases |bytes|
  {
    if bytes == [] then []
    else
      PushByteKeepsValid(s, bytes[0]);
      Completed(s, bytes[0]) + CompletedAll(s.PushByte(bytes[0]), bytes[1..])
  }

  lemma {:induction false} CollectOne<A, T>(f: A -> seq<T>, x: A)
    ensures Collect(f, [x]) == f(x)
  {
  }

  /** The log accounts for the step from s to s' on the input. */
  ghost predicate Accounts(log: seq<Piece>, s: Scanner, input: Bytes, s': Scanner) {
    && Collect(BytesPart, log) + Held(s') == Held(s) + input
    && s'.keyInput == s.keyInput + Collect(KeyPart, log)
    && s'.replies == s.replies + Collect(ReplyPart, log)
    && Genuine(log)
  }

  lemma {:induction false} NothingCompleted(s: Scanner, input: Bytes, s': Scanner)
    requires Held(s') == Held(s) + input && s'.keyInput == s.keyInput && s'.replies == s.replies
    ensures Accounts([], s, input, s')
  {
  }

  lemma {:induction false} OneCompleted(p: Piece, s: Scanner, input: Bytes, s': Scanner)
    requires p.bytes + Held(s') == Held(s) + input
    requires s'.keyInput == s.keyInput + KeyPart(p) && s'.replies == s.replies + ReplyPart(p) && Genuine([p])
    ensures Accounts([p], s, input, s')
  {
    CollectOne(BytesPart, p);
    CollectOne(KeyPart, p);
    CollectOne(ReplyPart, p);
  }

  lemma {:induction false} AccountsCompose(a: seq<Piece>, b: seq<Piece>, s: Scanner, x: Bytes, s': Scanner, y: Bytes, s'': Scanner)
    requires Accounts(a, s, x, s') && Accounts(b, s', y, s'')
    ensures Accounts(a + b, s, x + y, s'')
  {
    CollectConcat(BytesPart, a, b);
    CollectConcat(KeyPart, a, b);
    CollectConcat(ReplyPart, a, b);
    Associative(s.keyInput, Collect(KeyPart, a), Collect(KeyPart, b));
    Associative(s.replies, Collect(ReplyPart, a), Collect(ReplyPart, b));
    Associative(Collect(BytesPart, a), Collect(BytesPart, b), Held(s''));
    Associative(Collect(BytesPart, a), Held(s'), y);
    Associative(Held(s), x, y);
  }

  lemma {:induction false} GroundByteAccounts(s: Scanner, b: char)
    requires s.Valid() && !s.overflowed && s.state.Ground? && !s.PushByte(b).overflowed
    ensures Accounts(GroundPieces(b), s, [b], s.PushByte(b))
  {
    if b == ESC || b == C1_OSC {
      NothingCompleted(s, [b], s.PushByte(b));
    } else {
      OneCompleted(KeyPiece([b]), s, [b], s.PushByte(b));
    }
  }

  lemma {:induction false} EscByteAccounts(s: Scanner, b: char)
    requires s.Valid() && !s.overflowed && s.state.Esc? && !s.PushByte(b).overflowed
    ensures Accounts(Completed(s, b), s, [b], s.PushByte(b))
  {
    if b == ']' {
      NothingCompleted(s, [b], s.PushByte(b));
    } else {
      var s1 := s.AppendKeys([ESC]).(state := Ground);
      OneCompleted(KeyPiece([ESC]), s, [], s1);
      GroundByteAccounts(s1, b);
      AccountsCompose([KeyPiece([ESC])], GroundPieces(b), s, [], s1, [b], s.PushByte(b));
      assert [] + [b] == [b];
    }
  }

  lemma {:induction false} FinishAccounts(s: Scanner, b: char, full: Bytes, t: OscTerminator)
    requires s.Valid() && !s.overflowed && (s.state.Osc? || s.state.OscEsc?) && full == s.candidate + [b]
    requires EndsWith(full, TerminatorBytes(t)) && !s.Finish(full, t).overflowed
    ensures Accounts([FinishedPiece(full, t)], s, [b], s.Finish(full, t))
  {
    OneCompleted(FinishedPiece(full, t), s, [b], s.Finish(full, t));
  }

  /** One byte: what was held and the byte become completed pieces and what is held next. */
  lemma {:induction false} ByteAccounts(s: Scanner, b: char)
    requires s.Valid() && !s.overflowed && !s.PushByte(b).overflowed
    ensures Accounts(Completed(s, b), s, [b], s.PushByte(b))
  {
    match s.state {
      case Ground => GroundByteAccounts(s, b);
      case Esc => EscByteAccounts(s, b);
      case Osc =>
        if b == BEL {
          FinishAccounts(s, b, s.candidate + [b], Bell);
        } else {
          NothingCompleted(s, [b], s.PushByte(b));
        }
      case OscEsc =>
        if b == BACKSLASH {
          FinishAccounts(s, b, s.candidate + [b], St);
        } else {
          NothingCompleted(s, [b], s.PushByte(b));
        }
    }
  }

  /** One more byte in front. */
  lemma {:induction false} AccountsMore(s: Scanner, b: char, rest: Bytes, bytes: Bytes, s1: Scanner)
    requires s.Valid() && !s.overflowed && s1 == s.PushByte(b) && s1.Valid() && !s1.overflowed && bytes == [b] + rest
    requires Accounts(CompletedAll(s1, rest), s1, rest, PushAll(s1, rest))
    ensures Accounts(CompletedAll(s, bytes), s, bytes, PushAll(s, bytes))
  {
    assert bytes[0] == b && bytes[1..] == rest;
    ByteAccounts(s, b);
    AccountsCompose(Completed(s, b), CompletedAll(s1, rest), s, [b], s1, rest, PushAll(s1, rest));
  }

  lemma {:induction false} InputAccounts(s: Scanner, bytes: Bytes)
    requires s.Valid() && !PushAll(s, bytes).overflowed
    ensures !s.overflowed && Accounts(CompletedAll(s, bytes), s, bytes, PushAll(s, bytes))
    decreases |bytes|
  {
    if s.overflowed {
      OverflowIgnores(s, bytes);
    } else if bytes == [] {
      NothingCompleted(s, [], s);
    } else {
      var b, rest := bytes[0], bytes[1..];
      PushByteKeepsValid(s, b);
      InputAccounts(s.PushByte(b), rest);
      AccountsMore(s, b, rest, bytes, s.PushByte(b));
    }
  }

  // ----- sessions -----

  datatype Op = Input(bytes: Bytes) | TakeReplies | TakeKeys

  /** A scanner, what has been drained from it, and the log of its input. */
  datatype Session = Session(scanner: Scanner, keys: Bytes, replies: seq<AnimationReply>, log: seq<Piece>)

  function Apply(n: Session, op: Op): (r: Session)
    requires n.scanner.Valid()
    ensures r.scanner.Valid()
  {
    match op
    case Input(bytes) => n.(scanner := PushAll(n.scanner, bytes), log := n.log + CompletedAll(n.scanner, bytes))
    case TakeReplies => n.(scanner := n.scanner.(replies := []), replies := n.replies + n.scanner.replies)
    case TakeKeys => n.(scanner := n.scanner.(keyInput := []), keys := n.keys + n.scanner.keyInput)
  }

  function RunSession(n: Session, ops: seq<Op>): (r: Session)
    requires n.scanner.Valid()
    ensures r.scanner.Valid()
  {
    if ops == [] then n else Apply(RunSession(n, ops[..|ops| - 1]), ops[|ops| - 1])
  }

  function InputOf(ops: seq<Op>): Bytes {
    if ops == [] then []
    else InputOf(ops[..|ops| - 1]) + match ops[|ops| - 1] case Input(bytes) => bytes case TakeReplies => [] case TakeKeys => []
  }

  /** The input so far is, in order, the key bytes (drained or waiting), the accepted reply
      frames and the bytes still held. */
  ghost predicate Conserved(n: Session, input: Bytes) {
    && Collect(BytesPart, n.log) + Held(n.scanner) == input
    && Collect(KeyPart, n.log) == n.keys + n.scanner.keyInput
    && Collect(ReplyPart, n.log) == n.replies + n.scanner.replies
    && Genuine(n.log)
  }

  lemma {:induction false} InputConserves(n: Session, input: Bytes, bytes: Bytes)
    requires n.scanner.Valid() && Conserved(n, input) && !PushAll(n.scanner, bytes).overflowed
    ensures Conserved(Apply(n, Input(bytes)), input + bytes)
  {
    var s, s', log := n.scanner, PushAll(n.scanner, bytes), CompletedAll(n.scanner, bytes);
    InputAccounts(s, bytes);
    CollectConcat(BytesPart, n.log, log);
    CollectConcat(KeyPart, n.log, log);
    CollectConcat(ReplyPart, n.log, log);
    Associative(Collect(BytesPart, n.log), Collect(BytesPart, log), Held(s'));
    Associative(Collect(BytesPart, n.log), Held(s), bytes);
    Associative(n.keys, s.keyInput, Collect(KeyPart, log));
    Associative(n.replies, s.replies, Collect(ReplyPart, log));
  }

  lemma {:induction false} OverflowStays(n: Session, op: Op)
    requires n.scanner.Valid() && n.scanner.overflowed
    ensures Apply(n, op).scanner == Scanner.Overflow() && Apply(n, op).keys == n.keys && Apply(n, op).replies == n.replies
  {
    match op {
      case Input(bytes) => OverflowIgnores(n.scanner, bytes);
      case TakeReplies =>
      case TakeKeys =>
    }
  }

  /** Any pushes and drains in any order: nothing is lost, invented or reordered until the
      scanner overflows, and then it is empty. */
  lemma {:induction false} SessionConserves(ops: seq<Op>)
    ensures var n := RunSession(Session(Scanner.New(), [], [], []), ops);
            && n.scanner.Valid()
            && (if n.scanner.overflowed then n.scanner == Scanner.Overflow() else Conserved(n, InputOf(ops)))
  {
    var start := Session(Scanner.New(), [], [], []);
    if ops != [] {
      var earlier, op := ops[..|ops| - 1], ops[|ops| - 1];
      var m, n := RunSession(start, earlier), RunSession(start, ops);
      SessionConserves(earlier);
      if m.scanner.overflowed {
        OverflowStays(m, op);
      } else if !n.scanner.overflowed {
        match op {
          case Input(bytes) => InputConserves(m, InputOf(earlier), bytes);
          case TakeReplies => assert n.replies + [] == n.replies && InputOf(ops) == InputOf(earlier);
          case TakeKeys => assert n.keys + [] == n.keys && InputOf(ops) == InputOf(earlier);
        }
      }
    }
  }

  /** After an overflow no operation yields anything any more. */
  lemma {:induction false} OverflowYieldsNothing(n: Session, ops: seq<Op>)
    requires n.scanner.Valid() && n.scanner.overflowed
    ensures var r := RunSession(n, ops);
            r.scanner == Scanner.Overflow() && r.keys == n.keys && r.replies == n.replies
  {
    if ops != [] {
      var earlier := ops[..|ops| - 1];
      OverflowYieldsNothing(n, earlier);
      OverflowStays(RunSession(n, earlier), ops[|ops| - 1]);
    }
  }

  lemma {:induction false} LogsCompose(s: Scanner, a: Bytes, b: Bytes)
    requires s.Valid()
    ensures CompletedAll(s, a) + CompletedAll(PushAll(s, a), b) == CompletedAll(s, a + b)
    decreases |a|
  {
    if a == [] {
      assert a + b == b;
    } else {
      assert (a + b)[1..] == a[1..] + b;
      PushByteKeepsValid(s, a[0]);
      LogsCompose(s.PushByte(a[0]), a[1..], b);
    }
  }

  /** Cutting one push into two changes neither the scanner nor the log. */
  lemma {:induction false} SplitPushesAgree(n: Session, a: Bytes, b: Bytes)
    requires n.scanner.Valid()
    ensures Apply(Apply(n, Input(a)), Input(b)) == Apply(n, Input(a + b))
  {
    PushesCompose(n.scanner, a, b);
    LogsCompose(n.scanner, a, b);
    Associative(n.log, CompletedAll(n.scanner, a), CompletedAll(PushAll(n.scanner, a), b));
  }

  // ----- the log is a function of the input -----

  /** Both scanners are in the middle of the same thing, and no more waits in u than in s. */
  ghost predicate Behind(u: Scanner, s: Scanner) {
    && u.state == s.state && u.candidate == s.candidate && !u.overflowed && !s.overflowed
    && |u.keyInput| <= |s.keyInput| && |u.replies| <= |s.replies|
  }

  lemma {:induction false} FinishBehind(u: Scanner, s: Scanner, full: Bytes, t: OscTerminator)
    requires Behind(u, s) && EndsWith(full, TerminatorBytes(t)) && !s.Finish(full, t).overflowed
    ensures Behind(u.Finish(full, t), s.Finish(full, t))
  {
  }

  lemma {:induction false} ByteBehind(u: Scanner, s: Scanner, b: char)
    requires u.Valid() && s.Valid() && Behind(u, s) && !s.PushByte(b).overflowed
    ensures Behind(u.PushByte(b), s.PushByte(b)) && Completed(u, b) == Completed(s, b)
    decreases s.state.Esc?
  {
    match s.state {
      case Ground =>
      case Esc =>
        if b != ']' {
          ByteBehind(u.AppendKeys([ESC]).(state := Ground), s.AppendKeys([ESC]).(state := Ground), b);
        }
      case Osc =>
        if b == BEL {
          FinishBehind(u, s, s.candidate + [b], Bell);
        }
      case OscEsc =>
        if b == BACKSLASH {
          FinishBehind(u, s, s.candidate + [b], St);
        }
    }
  }

  function Drained(s: Scanner): (r: Scanner)
    ensures s.Valid() ==> r.Valid()
  {
    s.(keyInput := [], replies := [])
  }

  /** The scanner after some bytes when it is drained after each of them. */
  function Alone(u: Scanner, bytes: Bytes): (r: Scanner)
    requires u.Valid()
    ensures r.Valid() && (u == Drained(u) ==> r == Drained(r))
    decreases |bytes|
  {
    if bytes == [] then u
    else
      PushByteKeepsValid(u, bytes[0]);
      Alone(Drained(u.PushByte(bytes[0])), bytes[1..])
  }

  /** And the pieces that the bytes complete in it. */
  function LogOf(u: Scanner, bytes: Bytes): seq<Piece>
    requires u.Valid()
    decreases |bytes|
  {
    if bytes == [] then []
    else
      PushByteKeepsValid(u, bytes[0]);
      Completed(u, bytes[0]) + LogOf(Drained(u.PushByte(bytes[0])), bytes[1..])
  }

  lemma {:induction false} InputBehind(u: Scanner, s: Scanner, bytes: Bytes)
    requires u.Valid() && s.Valid() && Behind(u, s) && !PushAll(s, bytes).overflowed
    ensures Behind(Alone(u, bytes), PushAll(s, bytes)) && LogOf(u, bytes) == CompletedAll(s, bytes)
    decreases |bytes|
  {
    if bytes != [] {
      var b, rest := bytes[0], bytes[1..];
      PushByteKeepsValid(u, b);
      PushByteKeepsValid(s, b);
      if s.PushByte(b).overflowed {
        OverflowIgnores(s.PushByte(b), rest);
      }
      ByteBehind(u, s, b);
      InputBehind(Drained(u.PushByte(b)), s.PushByte(b), rest);
    }
  }

  lemma {:induction false} AloneComposes(u: Scanner, a: Bytes, b: Bytes)
    requires u.Valid()
    ensures Alone(Alone(u, a), b) == Alone(u, a + b)
    ensures LogOf(u, a) + LogOf(Alone(u, a), b) == LogOf(u, a + b)
    decreases |a|
  {
    if a == [] {
      assert a + b == b;
    } else {
      assert (a + b)[1..] == a[1..] + b;
      PushByteKeepsValid(u, a[0]);
      var u1 := Drained(u.PushByte(a[0]));
      AloneComposes(u1, a[1..], b);
      Associative(Completed(u, a[0]), LogOf(u1, a[1..]), LogOf(Alone(u, a), b));
    }
  }

  /** The log is that of the input, and the scanner is where the input leads. */
  ghost predicate LogIs(n: Session, input: Bytes) {
    Behind(Alone(Scanner.New(), input), n.scanner) && n.log == LogOf(Scanner.New(), input)
  }

  lemma {:induction false} InputLogIs(n: Session, input: Bytes, bytes: Bytes)
    requires n.scanner.Valid() && LogIs(n, input) && !PushAll(n.scanner, bytes).overflowed
    ensures LogIs(Apply(n, Input(bytes)), input + bytes)
  {
    InputBehind(Alone(Scanner.New(), input), n.scanner, bytes);
    AloneComposes(Scanner.New(), input, bytes);
  }

  lemma {:induction false} DrainLogIs(n: Session, input: Bytes)
    requires n.scanner.Valid() && LogIs(n, input)
    ensures LogIs(Apply(n, TakeReplies), input) && LogIs(Apply(n, TakeKeys), input)
  {
    assert Scanner.New() == Drained(Scanner.New());
    var u := Alone(Scanner.New(), input);
    assert u == Drained(u);
  }

  /** A session that has not overflowed has the log of its input. */
  lemma {:induction false} SessionLogIs(ops: seq<Op>)
    requires !RunSession(Session(Scanner.New(), [], [], []), ops).scanner.overflowed
    ensures LogIs(RunSession(Session(Scanner.New(), [], [], []), ops), InputOf(ops))
  {
    var start := Session(Scanner.New(), [], [], []);
    if ops != [] {
      var earlier, op := ops[..|ops| - 1], ops[|ops| - 1];
      var m := RunSession(start, earlier);
      if m.scanner.overflowed {
        OverflowStays(m, op);
      }
      SessionLogIs(earlier);
      match op {
        case Input(bytes) => InputLogIs(m, InputOf(earlier), bytes);
        case TakeReplies =>
          DrainLogIs(m, InputOf(earlier));
          assert InputOf(ops) == InputOf(earlier);
        case TakeKeys =>
          DrainLogIs(m, InputOf(earlier));
          assert InputOf(ops) == InputOf(earlier);
      }
    }
  }

  /** Two sessions with the same input, however it was pushed and whenever they were drained, have
      the same log, the same key bytes and replies, drained or waiting, and hold the same. */
  lemma {:induction false} SameInputSameOutput(a: seq<Op>, b: seq<Op>)
    requires InputOf(a) == InputOf(b)
    requires !RunSession(Session(Scanner.New(), [], [], []), a).scanner.overflowed
    requires !RunSession(Session(Scanner.New(), [], [], []), b).scanner.overflowed
    ensures var start := Session(Scanner.New(), [], [], []);
            var m, n := RunSession(start, a), RunSession(start, b);
            && m.log == n.log && Held(m.scanner) == Held(n.scanner)
            && m.keys + m.scanner.keyInput == n.keys + n.scanner.keyInput
            && m.replies + m.scanner.replies == n.replies + n.scanner.replies
  {
    SessionLogIs(a);
    SessionLogIs(b);
    SessionConserves(a);
    SessionConserves(b);
  }

  // ----- when it overflows -----

  /** The next byte exceeds a cap: the open candidate is full, or what the byte completes does not fit. */
  ghost predicate Exceeds(s: Scanner, b: char)
    requires s.Valid()
  {
    || ((s.state.Osc? || s.state.OscEsc?) && |s.candidate| >= 4096)
    || |s.keyInput| + |Collect(KeyPart, Completed(s, b))| > 4096
    || |s.replies| + |Collect(ReplyPart, Completed(s, b))| > 32
  }

  lemma {:induction false} CollectTwo<A, T>(f: A -> seq<T>, x: A, rest: seq<A>)
    ensures Collect(f, [x] + rest) == f(x) + Collect(f, rest)
  {
    assert ([x] + rest)[1..] == rest;
  }

  lemma {:induction false} FinishExceeds(s: Scanner, full: Bytes, t: OscTerminator, p: Piece)
    requires EndsWith(full, TerminatorBytes(t)) && p == FinishedPiece(full, t) && |s.keyInput| <= 4096 && |s.replies| <= 32
    ensures s.Finish(full, t).overflowed <==>
            s.overflowed || |s.keyInput| + |Collect(KeyPart, [p])| > 4096 || |s.replies| + |Collect(ReplyPart, [p])| > 32
  {
    CollectOne(KeyPart, p);
    CollectOne(ReplyPart, p);
  }

  lemma {:induction false} GroundExceeds(s: Scanner, b: char)
    requires s.Valid() && !s.overflowed && s.state.Ground?
    ensures s.PushByte(b).overflowed <==> Exceeds(s, b)
    ensures Collect(ReplyPart, GroundPieces(b)) == [] && |Collect(KeyPart, GroundPieces(b))| == |GroundPieces(b)| <= 1
  {
    CollectOne(KeyPart, KeyPiece([b]));
    CollectOne(ReplyPart, KeyPiece([b]));
  }

  lemma {:induction false} EscExceeds(s: Scanner, b: char)
    requires s.Valid() && !s.overflowed && s.state.Esc?
    ensures s.PushByte(b).overflowed <==> Exceeds(s, b)
  {
    if b != ']' {
      var s1 := s.AppendKeys([ESC]).(state := Ground);
      CollectTwo(KeyPart, KeyPiece([ESC]), GroundPieces(b));
      CollectTwo(ReplyPart, KeyPiece([ESC]), GroundPieces(b));
      GroundExceeds(s.(state := Ground), b);
      if |s.keyInput| < 4096 {
        GroundExceeds(s1, b);
      }
    }
  }

  /** A byte makes the scanner overflow exactly when it exceeds one of the three caps. */
  lemma {:induction false} OverflowsWhen(s: Scanner, b: char)
    requires s.Valid() && !s.overflowed
    ensures s.PushByte(b).overflowed <==> Exceeds(s, b)
  {
    match s.state {
      case Ground => GroundExceeds(s, b);
      case Esc => EscExceeds(s, b);
      case Osc =>
        if b == BEL && |s.candidate| < 4096 {
          FinishExceeds(s, s.candidate + [b], Bell, FinishedPiece(s.candidate + [b], Bell));
        }
      case OscEsc =>
        if b == BACKSLASH && |s.candidate| < 4096 {
          FinishExceeds(s, s.candidate + [b], St, FinishedPiece(s.candidate + [b], St));
        }
    }
  }

  /** The keys among some pieces are no more than their bytes. */
  lemma {:induction false} KeysAmongBytes(log: seq<Piece>)
    ensures |Collect(KeyPart, log)| <= |Collect(BytesPart, log)|
  {
    if log != [] {
      KeysAmongBytes(log[1..]);
    }
  }

  /** What a byte completes is no longer than what was held and the byte. */
  lemma {:induction false} CompletedIsShort(s: Scanner, b: char)
    requires s.Valid() && !s.overflowed
    ensures |Collect(KeyPart, Completed(s, b))| <= |Held(s)| + 1
  {
    match s.state {
      case Ground => GroundExceeds(s, b);
      case Esc =>
        CollectTwo(KeyPart, KeyPiece([ESC]), GroundPieces(b));
        GroundExceeds(s.(state := Ground), b);
      case Osc =>
        if b == BEL {
          CollectOne(KeyPart, FinishedPiece(s.candidate + [b], Bell));
        }
      case OscEsc =>
        if b == BACKSLASH {
          CollectOne(KeyPart, FinishedPiece(s.candidate + [b], St));
        }
    }
  }

  /** Input that fits between what waits, what is held and the caps does not make the scanner overflow. */
  lemma {:induction false} InputFits(u: Scanner, s: Scanner, bytes: Bytes)
    requires u.Valid() && s.Valid() && Behind(u, s)
    requires |s.keyInput| + |Held(s)| + |bytes| <= 4096 && |s.replies| + |Collect(ReplyPart, LogOf(u, bytes))| <= 32
    ensures !PushAll(s, bytes).overflowed
    decreases |bytes|
  {
    if bytes != [] {
      var b, rest := bytes[0], bytes[1..];
      var pieces, u1, s1 := Completed(s, b), Drained(u.PushByte(b)), s.PushByte(b);
      PushByteKeepsValid(u, b);
      PushByteKeepsValid(s, b);
      assert Completed(u, b) == pieces;
      CollectConcat(ReplyPart, pieces, LogOf(u1, rest));
      CompletedIsShort(s, b);
      OverflowsWhen(s, b);
      ByteBehind(u, s, b);
      ByteAccounts(s, b);
      KeysAmongBytes(pieces);
      assert |Collect(BytesPart, pieces)| + |Held(s1)| == |Held(s)| + 1;
      InputFits(u1, s1, rest);
    }
  }

  /** A session whose whole input has at most 4096 bytes, with at most 32 replies in it, has not
      overflowed, whatever was pushed together and whether or not it was drained. */
  lemma {:induction false} ShortSessionFits(ops: seq<Op>)
    requires |InputOf(ops)| <= 4096 && |Collect(ReplyPart, LogOf(Scanner.New(), InputOf(ops)))| <= 32
    ensures !RunSession(Session(Scanner.New(), [], [], []), ops).scanner.overflowed
  {
    var start := Session(Scanner.New(), [], [], []);
    if ops != [] {
      var earlier, op := ops[..|ops| - 1], ops[|ops| - 1];
      var m, input := RunSession(start, earlier), InputOf(earlier);
      var u := Alone(Scanner.New(), input);
      if op.Input? {
        AloneComposes(Scanner.New(), input, op.bytes);
        CollectConcat(ReplyPart, LogOf(Scanner.New(), input), LogOf(u, op.bytes));
      } else {
        assert InputOf(ops) == input;
      }
      ShortSessionFits(earlier);
      SessionLogIs(earlier);
      SessionConserves(earlier);
      if op.Input? {
        KeysAmongBytes(m.log);
        InputFits(u, m.scanner, op.bytes);
      }
    }
  }
}
