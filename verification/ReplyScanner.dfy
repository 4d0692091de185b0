/** The bounded byte scanner that separates protocol replies from keystrokes. */
module ReplyScanning {
  import opened Basics
  import opened AnimationReplies
  import opened Utf8

  const MAX_CANDIDATE: nat := 4096
  const MAX_REPLIES: nat := 32
  const MAX_KEY_INPUT: nat := 4096

  // ----- candidates -----

  const LONG_PREFIX: Bytes := [ESC, ']'] + "1337;"
  const SHORT_PREFIX: Bytes := [C1_OSC] + "1337;"

  ghost predicate EndsWith(s: Bytes, t: Bytes) {
    |t| <= |s| && s[|s| - |t|..] == t
  }

  function PrefixLen(candidate: Bytes): nat {
    if LONG_PREFIX <= candidate then 7 else if SHORT_PREFIX <= candidate then 6 else 0
  }

  /** A terminator never overlaps a prefix. */
  lemma {:induction false} PrefixEndsBeforeTerminator(candidate: Bytes, t: OscTerminator)
    requires EndsWith(candidate, TerminatorBytes(t))
    ensures PrefixLen(candidate) <= |candidate| - |TerminatorBytes(t)|
  {
    var end := |candidate| - |TerminatorBytes(t)|;
    assert candidate[end] == candidate[end..][0] == TerminatorBytes(t)[0];
    if LONG_PREFIX <= candidate {
      assert forall i :: 0 <= i < 7 ==> candidate[i] == LONG_PREFIX[i];
    } else if SHORT_PREFIX <= candidate {
      assert forall i :: 0 <= i < 6 ==> candidate[i] == SHORT_PREFIX[i];
    }
  }

  /** The key and value of a candidate, if it is a well-formed reply frame. */
  function CandidatePayload(candidate: Bytes, t: OscTerminator): Option<Field>
    requires EndsWith(candidate, TerminatorBytes(t))
  {
    PrefixEndsBeforeTerminator(candidate, t);
    var n := PrefixLen(candidate);
    if n == 0 then None
    else
      var body := candidate[n..|candidate| - |TerminatorBytes(t)|];
      if !ValidUtf8(body) then None
      else
        var field := SplitOnce(body, '=');
        if field.Some? && (field.value.key == STATE_REPLY_KEY || field.value.key == SAVED_REPLY_KEY) then field else None
  }

  /** The reply that a finished candidate carries, if any. */
  function ReplyOf(candidate: Bytes, t: OscTerminator): Option<AnimationReply>
    requires EndsWith(candidate, TerminatorBytes(t))
  {
    var payload := CandidatePayload(candidate, t);
    if payload.None? then None
    else
      var parsed := ParsePayload(payload.value.value);
      if parsed.Ok? then Some(parsed.value) else None
  }

  // ----- the state machine -----

  datatype ScanState = Ground | Esc | Osc | OscEsc

  datatype Scanner = Scanner(
    state: ScanState, candidate: Bytes, keyInput: Bytes, replies: seq<AnimationReply>, overflowed: bool)
  {
    static function New(): Scanner {
      Scanner(Ground, [], [], [], false)
    }

    /** What every reachable scanner satisfies: the caps, what the candidate looks like in each
        state, and that an overflowed scanner holds nothing. */
    ghost predicate Valid() {
      && |candidate| <= MAX_CANDIDATE && |keyInput| <= MAX_KEY_INPUT && |replies| <= MAX_REPLIES
      && (state.Ground? || state.Esc? ==> candidate == [])
      && (state.Osc? || state.OscEsc? ==> candidate != [])
      && (state.OscEsc? ==> EndsWith(candidate, [ESC]))
      && (overflowed ==> this == Overflow())
    }

    static function Overflow(): Scanner {
      Scanner(Ground, [], [], [], true)
    }

    function AppendKeys(bytes: Bytes): Scanner {
      if |keyInput| + |bytes| > MAX_KEY_INPUT then Overflow() else this.(keyInput := keyInput + bytes)
    }

    /** A finished candidate is a reply or goes to the keys unchanged. */
    function Finish(full: Bytes, t: OscTerminator): Scanner
      requires EndsWith(full, TerminatorBytes(t))
    {
      var s := this.(candidate := [], state := Ground);
      var reply := ReplyOf(full, t);
      if reply.None? then s.AppendKeys(full)
      else if |replies| >= MAX_REPLIES then Overflow()
      else s.(replies := replies + [reply.value])
    }

    function PushByte(b: char): Scanner
      requires Valid()
      decreases state.Esc?
    {
      if overflowed then this
      else match state
        case Ground =>
          if b == ESC then this.(state := Esc)
          else if b == C1_OSC then this.(state := Osc, candidate := [b])
          else AppendKeys([b])
        case Esc =>
          if b == ']' then this.(state := Osc, candidate := [ESC, ']'])
          else
            var s := AppendKeys([ESC]);
            if s.overflowed then s else s.(state := Ground).PushByte(b)
        case Osc =>
          if |candidate| >= MAX_CANDIDATE then Overflow()
          else
            var full := candidate + [b];
            if b == BEL then Finish(full, Bell)
            else if b == ESC then this.(candidate := full, state := OscEsc)
            else this.(candidate := full)
        case OscEsc =>
          if |candidate| >= MAX_CANDIDATE then Overflow()
          else
            var full := candidate + [b];
            if b == BACKSLASH then Finish(full, St) else this.(candidate := full, state := Osc)
    }
  }

  lemma {:induction false} PushByteKeepsValid(s: Scanner, b: char)
    requires s.Valid()
    ensures s.PushByte(b).Valid()
    decreases s.state.Esc?
  {
    if s.state.Esc? && !s.overflowed && b != ']' && !s.AppendKeys([ESC]).overflowed {
      PushByteKeepsValid(s.AppendKeys([ESC]).(state := Ground), b);
    }
  }

  function PushAll(s: Scanner, bytes: Bytes): (r: Scanner)
    requires s.Valid()
    ensures r.Valid()
    decreases |bytes|
  {
    if bytes == [] then s
    else
      PushByteKeepsValid(s, bytes[0]);
      PushAll(s.PushByte(bytes[0]), bytes[1..])
  }

  // ----- the scanner object -----

  class ReplyScanner {
    var state: ScanState
    var candidate: Bytes
    var keyInput: Bytes
    var replies: seq<AnimationReply>
    var overflowed: bool

    ghost function State(): Scanner
      reads this
    {
      Scanner(state, candidate, keyInput, replies, overflowed)
    }

    constructor ()
      ensures State() == Scanner.New() && State().Valid()
    {
      state, candidate, keyInput, replies, overflowed := Ground, [], [], [], false;
    }

    method MarkOverflow()
      modifies this
      ensures State() == Scanner.Overflow()
    {
      overflowed := true;
      state, candidate, keyInput, replies := Ground, [], [], [];
    }

    method AppendKeyCandidate(bytes: Bytes)
      requires |keyInput| <= MAX_KEY_INPUT
      modifies this
      ensures State() == old(State()).AppendKeys(bytes)
    {
      if |bytes| > MAX_KEY_INPUT - |keyInput| {
        MarkOverflow();
        return;
      }
      keyInput := keyInput + bytes;
    }

    method FinishCandidate(t: OscTerminator)
      requires EndsWith(candidate, TerminatorBytes(t)) && |keyInput| <= MAX_KEY_INPUT
      modifies this
      ensures State() == old(State()).Finish(old(candidate), t)
    {
      var full := candidate;
      candidate := [];
      state := Ground;
      var payload := CandidatePayload(full, t);
      if payload.None? {
        AppendKeyCandidate(full);
        return;
      }
      var parsed := ParsePayload(payload.value.value);
      if parsed.Ok? {
        if |replies| >= MAX_REPLIES {
          MarkOverflow();
          return;
        }
        replies := replies + [parsed.value];
      } else {
        AppendKeyCandidate(full);
      }
    }

    /** A byte of a control string. */
    method PushOsc(b: char)
      requires State().Valid() && !overflowed && state.Osc?
      modifies this
      ensures State() == old(State()).PushByte(b)
    {
      if |candidate| >= MAX_CANDIDATE {
        MarkOverflow();
        return;
      }
      candidate := candidate + [b];
      if b == BEL {
        FinishCandidate(Bell);
      } else if b == ESC {
        state := OscEsc;
      }
    }

    /** The byte behind an escape in a control string. */
    method PushOscEsc(b: char)
      requires State().Valid() && !overflowed && state.OscEsc?
      modifies this
      ensures State() == old(State()).PushByte(b)
    {
      if |candidate| >= MAX_CANDIDATE {
        MarkOverflow();
        return;
      }
      candidate := candidate + [b];
      if b == BACKSLASH {
        FinishCandidate(St);
      } else {
        state := Osc;
      }
    }

    method PushByte(b: char)
      requires State().Valid()
      modifies this
      ensures State() == old(State()).PushByte(b) && State().Valid()
      decreases state.Esc?
    {
      PushByteKeepsValid(State(), b);
      if overflowed {
        return;
      }
      match state
      case Ground =>
        if b == ESC {
          state := Esc;
        } else if b == C1_OSC {
          candidate := [b];
          state := Osc;
        } else {
          if |keyInput| >= MAX_KEY_INPUT {
            MarkOverflow();
            return;
          }
          keyInput := keyInput + [b];
        }
      case Esc =>
        if b == ']' {
          candidate := [ESC, ']'];
          state := Osc;
        } else {
          if |keyInput| >= MAX_KEY_INPUT {
            MarkOverflow();
            return;
          }
          keyInput := keyInput + [ESC];
          state := Ground;
          PushByte(b);
        }
      case Osc => PushOsc(b);
      case OscEsc => PushOscEsc(b);
    }

    method Push(bytes: Bytes)
      requires State().Valid()
      modifies this
      ensures State() == PushAll(old(State()), bytes) && State().Valid()
    {
      if overflowed {
        OverflowIgnores(State(), bytes);
        return;
      }
      ghost var result := PushAll(State(), bytes);
      for i := 0 to |bytes|
        invariant State().Valid() && PushAll(State(), bytes[i..]) == result
      {
        if overflowed {
          OverflowIgnores(State(), bytes[i..]);
          return;
        }
        assert bytes[i..][0] == bytes[i] && bytes[i..][1..] == bytes[i + 1..];
        PushByte(bytes[i]);
      }
    }

    method DrainReplies() returns (r: seq<AnimationReply>)
      requires State().Valid()
      modifies this
      ensures r == old(replies) && State() == old(State()).(replies := []) && State().Valid()
    {
      r := replies;
      replies := [];
    }

    method DrainKeyInput() returns (r: Bytes)
      requires State().Valid()
      modifies this
      ensures r == old(keyInput) && State() == old(State()).(keyInput := []) && State().Valid()
    {
      r := keyInput;
      keyInput := [];
    }
  }

  /** Overflow is absorbing: no input changes an overflowed scanner. */
  lemma {:induction false} OverflowIgnores(s: Scanner, bytes: Bytes)
    requires s.Valid() && s.overflowed
    ensures PushAll(s, bytes) == s == Scanner.Overflow()
    decreases |bytes|
  {
    if bytes != [] {
      OverflowIgnores(s, bytes[1..]);
    }
  }
}
