/** Dispatch of server-sent events, and the hand-off from the reader goroutine. */
module Sse {

  /** What the select loop receives. */
  datatype Input = Line(text: string) | IdleTimeout | Cancelled | Closed

  predicate IsField(line: string) {
    "event:" <= line || "data:" <= line
  }

  predicate IsComment(line: string) {
    ":" <= line
  }

  lemma CommentsAreNotFields(line: string)
    ensures IsComment(line) || line == "" ==> !IsField(line)
  {
    assert "event:"[0] == 'e' && "data:"[0] == 'd' && ":"[0] == ':';
  }

  // ---- Blocks ----

  /** The block that is open before line n holds a field line. */
  ghost predicate OpenBlock(lines: seq<string>, n: nat)
    requires n <= |lines|
  {
    exists j | 0 <= j < n :: IsField(lines[j]) && forall k | j < k < n :: lines[k] != ""
  }

  /** Line i is blank and terminates a block that holds a field line. */
  ghost predicate Terminates(lines: seq<string>, i: nat)
    requires i < |lines|
  {
    lines[i] == "" && OpenBlock(lines, i)
  }

  /** The blank-terminated blocks with a field line among the first n lines. */
  ghost function Blocks(lines: seq<string>, n: nat): nat
    requires n <= |lines|
  {
    if n == 0 then 0
    else if Terminates(lines, n - 1) then Blocks(lines, n - 1) + 1 else Blocks(lines, n - 1)
  }

  ghost function BlockCount(lines: seq<string>): nat {
    Blocks(lines, |lines|)
  }

  /** The lines read before the first input that ends the loop. */
  ghost function LinesOf(inputs: seq<Input>): seq<string> {
    if inputs == [] || !inputs[0].Line? then [] else [inputs[0].text] + LinesOf(inputs[1..])
  }

  lemma {:induction false} OpenBlockStep(lines: seq<string>, n: nat)
    requires n < |lines|
    ensures OpenBlock(lines, n + 1) <==> IsField(lines[n]) || (lines[n] != "" && OpenBlock(lines, n))
  {
    hide IsField;
    if lines[n] != "" && OpenBlock(lines, n) {
      var j :| 0 <= j < n && IsField(lines[j]) && forall k | j < k < n :: lines[k] != "";
      assert forall k | j < k < n + 1 :: lines[k] != "";
    }
  }

  /** The event loop calls the handler once per blank-terminated block that
      holds an `event:` or `data:` line, for every sequence of lines, however
      the stream ends. */
  method Subscribe(inputs: seq<Input>) returns (calls: nat, handled: nat)
    ensures handled <= |inputs| && (handled < |inputs| ==> !inputs[handled].Line?)
    ensures forall i | 0 <= i < handled :: inputs[i].Line?
    ensures LinesOf(inputs) == seq(handled, i requires 0 <= i < handled => inputs[i].text)
    ensures calls == BlockCount(LinesOf(inputs))
  {
    hide OpenBlock;
    ghost var lines := LinesOf(inputs);
    var sawEventField := false;
    calls, handled := 0, 0;
    assert !OpenBlock(lines, 0) by {
      NothingOpen(lines);
    }
    assert inputs[0..] == inputs && lines[0..] == lines;
    while handled < |inputs| && inputs[handled].Line?
      invariant handled <= |inputs| && handled <= |lines|
      invariant forall i | 0 <= i < handled :: inputs[i].Line? && inputs[i].text == lines[i]
      invariant lines[handled..] == LinesOf(inputs[handled..])
      invariant sawEventField == OpenBlock(lines, handled)
      invariant calls == Blocks(lines, handled)
    {
      var line := inputs[handled].text;
      assert inputs[handled..][1..] == inputs[handled + 1..];
      assert lines[handled..][0] == line;
      assert lines[handled..][1..] == lines[handled + 1..];
      OpenBlockStep(lines, handled);
      CommentsAreNotFields(line);
      if line == "" {
        if sawEventField {
          calls := calls + 1;
          sawEventField := false;
        }
      } else if IsComment(line) {
      } else if "event:" <= line || "data:" <= line {
        sawEventField := true;
      }
      handled := handled + 1;
    }
    assert LinesOf(inputs[handled..]) == [];
  }

  lemma NothingOpen(lines: seq<string>)
    ensures !OpenBlock(lines, 0)
  {
  }

  // ---- Comments ----

  /** Open state and blocks after a list of lines, read line by line. */
  ghost function Scan(lines: seq<string>): (bool, nat) {
    if lines == [] then (false, 0)
    else
      var n := |lines| - 1;
      var (open, blocks) := Scan(lines[..n]);
      if lines[n] == "" then (false, if open then blocks + 1 else blocks)
      else (open || IsField(lines[n]), blocks)
  }

  lemma {:induction false} BlocksOfPrefix(lines: seq<string>, more: seq<string>, n: nat)
    requires n <= |lines|
    ensures Blocks(lines + more, n) == Blocks(lines, n) && OpenBlock(lines + more, n) == OpenBlock(lines, n)
  {
    hide IsField;
    assert forall k | 0 <= k < |lines| :: (lines + more)[k] == lines[k];
    if n > 0 {
      BlocksOfPrefix(lines, more, n - 1);
    }
  }

  lemma {:induction false} ScanCounts(lines: seq<string>)
    ensures Scan(lines) == (OpenBlock(lines, |lines|), BlockCount(lines))
  {
    if lines != [] {
      hide OpenBlock;
      var n := |lines| - 1;
      assert lines == lines[..n] + [lines[n]];
      ScanCounts(lines[..n]);
      BlocksOfPrefix(lines[..n], [lines[n]], n);
      OpenBlockStep(lines, n);
    } else {
      NothingOpen(lines);
    }
  }

  lemma {:induction false} ScanSkips(a: seq<string>, c: string, b: seq<string>)
    requires c != "" && !IsField(c)
    ensures Scan(a + [c] + b) == Scan(a + b)
  {
    if b == [] {
      assert a + [c] + b == a + [c] && a + b == a && (a + [c])[..|a|] == a;
    } else {
      var n := |b| - 1;
      ScanSkips(a, c, b[..n]);
      assert (a + [c] + b)[..|a| + 1 + n] == a + [c] + b[..n];
      assert (a + b)[..|a| + n] == a + b[..n];
    }
  }

  /** A line that is not blank is looked over exactly when it does not start
      with "event:" or "data:": then it may stand anywhere, in any stream,
      without changing how often the handler is called. */
  lemma OnlyFieldsDispatch(l: string)
    requires l != ""
    ensures (forall a, b :: BlockCount(a + [l] + b) == BlockCount(a + b)) <==>
            !("event:" <= l) && !("data:" <= l)
  {
    if "event:" <= l || "data:" <= l {
      FieldThenBlank([], l);
      ScanCounts([""]);
      assert [""][..0] == [] && [] + [l, ""] == [] + [l] + [""] && [] + [""] == [""];
      assert BlockCount([""]) == 0;
      assert BlockCount([] + [l] + [""]) != BlockCount([] + [""]);
    } else {
      forall a, b ensures BlockCount(a + [l] + b) == BlockCount(a + b) {
        ScanSkips(a, l, b);
        ScanCounts(a + [l] + b);
        ScanCounts(a + b);
      }
    }
  }

  /** A field line and then a blank one call the handler once more, after any
      lines at all; a second blank line does not. */
  lemma FieldThenBlank(lines: seq<string>, l: string)
    requires "event:" <= l || "data:" <= l
    ensures BlockCount(lines + [l, ""]) == BlockCount(lines) + 1
    ensures BlockCount(lines + [l, "", ""]) == BlockCount(lines) + 1
  {
    assert l != "" by {
      assert "event:"[0] == 'e' && "data:"[0] == 'd';
    }
    ScanAppend(lines, l);
    ScanAppend(lines + [l], "");
    ScanAppend(lines + [l] + [""], "");
    assert lines + [l] + [""] == lines + [l, ""] && lines + [l] + [""] + [""] == lines + [l, "", ""];
    ScanCounts(lines);
    ScanCounts(lines + [l, ""]);
    ScanCounts(lines + [l, "", ""]);
  }

  lemma ScanAppend(lines: seq<string>, l: string)
    ensures
      var (open, blocks) := Scan(lines);
      Scan(lines + [l]) ==
      if l == "" then (false, if open then blocks + 1 else blocks) else (open || IsField(l), blocks)
  {
    assert (lines + [l])[..|lines|] == lines;
  }

  /** A keepalive comment inserted anywhere changes no dispatch. */
  lemma CommentsDoNotDispatch(a: seq<string>, c: string, b: seq<string>)
    requires ":" <= c
    ensures BlockCount(a + [c] + b) == BlockCount(a + b)
  {
    CommentsAreNotFields(c);
    OnlyFieldsDispatch(c);
  }

  // ---- The hand-off ----

  /** The reader has taken `pos` lines off the stream; `buffer` holds those the
      channel keeps; the close is posted on its own channel. */
  datatype Link = Link(pos: nat, buffer: seq<string>, handled: seq<string>, posted: bool, ended: bool)

  datatype Move = HandOff | Put | Take | PostClose | ReceiveClose

  /** One move of the reader or of the loop, over a channel of capacity `cap`;
      the source's channel has capacity 0. */
  ghost function Apply(cap: nat, lines: seq<string>, s: Link, m: Move): Link {
    if s.ended then s else
    match m
    case HandOff =>
      if s.pos < |lines| && s.buffer == [] then s.(pos := s.pos + 1, handled := s.handled + [lines[s.pos]]) else s
    case Put =>
      if s.pos < |lines| && |s.buffer| < cap then s.(pos := s.pos + 1, buffer := s.buffer + [lines[s.pos]]) else s
    case Take =>
      if s.buffer != [] then s.(buffer := s.buffer[1..], handled := s.handled + [s.buffer[0]]) else s
    case PostClose => if s.pos >= |lines| then s.(posted := true) else s
    case ReceiveClose => if s.posted then s.(ended := true) else s
  }

  ghost function Moves(cap: nat, lines: seq<string>, moves: seq<Move>): Link {
    if moves == [] then Link(0, [], [], false, false)
    else Apply(cap, lines, Moves(cap, lines, moves[..|moves| - 1]), moves[|moves| - 1])
  }

  lemma {:induction false} HandedOverInOrder(cap: nat, lines: seq<string>, moves: seq<Move>)
    ensures
      var s := Moves(cap, lines, moves);
      && s.pos <= |lines| && s.handled + s.buffer == lines[..s.pos] && |s.buffer| <= cap
      && (s.posted || s.ended ==> s.pos == |lines|)
  {
    if moves != [] {
      HandedOverInOrder(cap, lines, moves[..|moves| - 1]);
      var s := Moves(cap, lines, moves[..|moves| - 1]);
      if s.pos < |lines| {
        assert lines[..s.pos + 1] == lines[..s.pos] + [lines[s.pos]];
      }
      if s.buffer != [] {
        assert s.buffer == [s.buffer[0]] + s.buffer[1..];
      }
    }
  }

  ghost predicate AllHandledAtClose(cap: nat, lines: seq<string>) {
    forall moves :: Moves(cap, lines, moves).ended ==> Moves(cap, lines, moves).handled == lines
  }

  /** When the stream ends by closing, every line read was handled first,
      exactly because the channel has no buffer (or nothing was sent). */
  lemma AllHandledExactlyWhenUnbuffered(cap: nat, lines: seq<string>)
    ensures AllHandledAtClose(cap, lines) <==> cap == 0 || lines == []
  {
    if cap == 0 || lines == [] {
      forall moves | Moves(cap, lines, moves).ended ensures Moves(cap, lines, moves).handled == lines {
        HandedOverInOrder(cap, lines, moves);
        assert lines[..|lines|] == lines;
      }
    } else {
      var n := |lines| - 1;
      var moves := HandOffs(n);
      HandOffsReach(cap, lines, n);
      OneMore(cap, lines, moves, Put);
      OneMore(cap, lines, moves + [Put], PostClose);
      OneMore(cap, lines, moves + [Put] + [PostClose], ReceiveClose);
      var s := Moves(cap, lines, moves + [Put] + [PostClose] + [ReceiveClose]);
      assert s.ended && |s.handled| == n;
    }
  }

  lemma OneMore(cap: nat, lines: seq<string>, moves: seq<Move>, m: Move)
    ensures Moves(cap, lines, moves + [m]) == Apply(cap, lines, Moves(cap, lines, moves), m)
  {
    assert (moves + [m])[..|moves|] == moves;
  }

  ghost function HandOffs(n: nat): seq<Move> {
    seq(n, _ => HandOff)
  }

  lemma {:induction false} HandOffsReach(cap: nat, lines: seq<string>, n: nat)
    requires n <= |lines|
    ensures Moves(cap, lines, HandOffs(n)) == Link(n, [], lines[..n], false, false)
  {
    if n > 0 {
      HandOffsReach(cap, lines, n - 1);
      assert HandOffs(n)[..n - 1] == HandOffs(n - 1);
      assert lines[..n] == lines[..n - 1] + [lines[n - 1]];
    }
  }
}
