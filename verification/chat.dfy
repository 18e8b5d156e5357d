/**
 The nickname read at startup by both files, and the chat side-channel of
 src/main.cpp: the per-tick chat packet (`UpdateChat`) and the history window
 printed to the console (`PrintChat`).  Console input and output are not modelled: typed
 lines are inputs and the printed window is a sequence of rows.
 */
module Chat {
  import opened Optional

  const NickCap: nat := 10
  const MessageCap: nat := 50
  const HistoryCap: nat := 100
  const WindowRows: nat := 20
  const Separator: string := ":> "

  /** At most the first `cap` characters of `s`. */
  function Truncate(s: string, cap: nat): (r: string)
    ensures |r| == if |s| <= cap then |s| else cap
    ensures r == s[..|r|]
  {
    if |s| > cap then s[..cap] else s
  }

  /**
   The nickname prompt of `Init`: lines are read until one is not empty, and
   that line is cut to `NickCap` characters.  `None` stands for a prompt that
   never ends because every line read is empty.
   */
  function LocalNick(lines: seq<string>): (r: Option<string>)
    ensures r.None? <==> forall i :: 0 <= i < |lines| ==> lines[i] == ""
    ensures r.Some? ==> 0 < |r.value| <= NickCap
    ensures r.Some? ==> exists i :: 0 <= i < |lines| && lines[i] != ""
                           && (forall j :: 0 <= j < i ==> lines[j] == "")
                           && r.value == Truncate(lines[i], NickCap)
    decreases |lines|
  {
    if lines == [] then None
    else if lines[0] != "" then Some(Truncate(lines[0], NickCap))
    else
      var r := LocalNick(lines[1..]);
      assert forall i :: 1 <= i < |lines| ==> lines[1..][i - 1] == lines[i];
      r
  }

  /** One peer's chat: its nickname, the typed message not yet sent ("" for none), and the history. */
  datatype ChatState = ChatState(nick: string, pending: string, history: seq<string>)

  /** A chat line as sent and stored: the nick, the separator, and the message cut to `MessageCap`. */
  function Format(nick: string, msg: string): (line: string)
    ensures |line| == |nick| + |Separator| + (if |msg| <= MessageCap then |msg| else MessageCap)
    ensures line[..|nick|] == nick
    ensures line[|nick|..|nick| + |Separator|] == Separator
    ensures line[|nick| + |Separator|..] == msg[..|line| - |nick| - |Separator|]
  {
    nick + Separator + Truncate(msg, MessageCap)
  }

  /**
   The line the input thread hands over as the next message: nothing when the
   line read is blank, that is empty or a lone space, newline or tab (the
   comparison with "\0" is one with the empty string).
   */
  function Handed(line: string): (msg: string)
    ensures msg == "" || msg == line
    ensures msg == "" <==> line == "" || line == " " || line == "\n" || line == "\t"
  {
    if line != "" && line != " " && line != "\n" && line != "\t" then line else ""
  }

  /** The text of this tick's outgoing chat packet; "" is the empty packet. */
  function Outgoing(st: ChatState): (text: string)
  {
    if st.pending == "" then "" else Format(st.nick, st.pending)
  }

  /** The lines a tick adds to the history: the own message first, then the one received. */
  function Added(st: ChatState, incoming: string): (lines: seq<string>)
  {
    (if st.pending == "" then [] else [Format(st.nick, st.pending)]) + (if incoming == "" then [] else [incoming])
  }

  /**
   The history trim of `PrintChat` as written: from 100 entries on, entries
   80 onwards are moved to the front and everything from index 20 on is
   erased.  The moved-from tail keeps unspecified strings; they are erased.
   */
  function TrimAsWritten(h: seq<string>): (r: seq<string>)
    ensures |h| < HistoryCap ==> r == h
    ensures HistoryCap <= |h| ==> r == h[80..100]
  {
    if |h| >= HistoryCap then
      var moved := h[80..] + h[|h| - 80..];
      moved[..WindowRows]
    else h
  }

  /** The history trim with the evident intent: from 100 entries on, keep the newest 20. */
  function Trim(h: seq<string>): (r: seq<string>)
    ensures |r| == if |h| < HistoryCap then |h| else WindowRows
    ensures r == h[|h| - |r|..]
  {
    if |h| >= HistoryCap then h[|h| - WindowRows..] else h
  }

  /** Both trims agree except when the history overshoots 100 entries. */
  lemma TrimsAgreeUpTo100(h: seq<string>)
    requires |h| <= HistoryCap
    ensures TrimAsWritten(h) == Trim(h)
  {
  }

  /** The result of one tick of chat bookkeeping: the new state and whether the window is reprinted. */
  datatype ChatUpdate = ChatUpdate(state: ChatState, redraw: bool)

  /**
   `UpdateChat`, given the text of the packet received this tick ("" when the
   packet was empty or the receive failed): the own message and then the
   received one are appended, the pending slot is cleared, and when the
   history grew the window is reprinted, which trims the history as written.
   */
  function UpdateChat(st: ChatState, incoming: string): (r: ChatUpdate)
    ensures r.state.nick == st.nick && r.state.pending == ""
    ensures r.redraw <==> st.pending != "" || incoming != ""
    ensures var all := st.history + Added(st, incoming);
      && (!r.redraw ==> r.state.history == st.history)
      && (|all| < HistoryCap ==> r.state.history == all)
      && (r.redraw && HistoryCap <= |all| ==> r.state.history == all[80..100])
    ensures |st.history| < HistoryCap ==> |r.state.history| < HistoryCap
    ensures |st.history| + |Added(st, incoming)| <= HistoryCap ==> NewestKept(st, incoming, r.state.history)
  {
    var all := st.history + Added(st, incoming);
    var redraw := |all| != |st.history|;
    ChatUpdate(ChatState(st.nick, "", if redraw then TrimAsWritten(all) else all), redraw)
  }

  /**
   The new history `h` ends with the lines this tick added, in order: the own
   message, then the received one.
   */
  predicate NewestKept(st: ChatState, incoming: string, h: seq<string>)
  {
    var all := st.history + Added(st, incoming);
    && |Added(st, incoming)| <= |h| <= |all|
    && h == all[|all| - |h|..]
    && (incoming != "" ==> h[|h| - 1] == incoming)
    && (st.pending != "" ==> h[|h| - |Added(st, incoming)|] == Format(st.nick, st.pending))
  }

  /** `UpdateChat` with the corrected trim: the lines of the tick are never lost. */
  function UpdateChatCorrected(st: ChatState, incoming: string): (r: ChatUpdate)
    ensures r.state.nick == st.nick && r.state.pending == ""
    ensures r.redraw <==> st.pending != "" || incoming != ""
    ensures !r.redraw ==> r.state.history == st.history
    ensures |st.history| < HistoryCap ==> |r.state.history| < HistoryCap
    ensures |st.history| < HistoryCap ==> NewestKept(st, incoming, r.state.history)
  {
    var all := st.history + Added(st, incoming);
    var redraw := |all| != |st.history|;
    ChatUpdate(ChatState(st.nick, "", if redraw then Trim(all) else all), redraw)
  }

  /** The two versions differ only in a tick that takes the history past 100 entries. */
  lemma UpdateChatsAgree(st: ChatState, incoming: string)
    requires |st.history| + |Added(st, incoming)| <= HistoryCap
    ensures UpdateChat(st, incoming) == UpdateChatCorrected(st, incoming)
  {
    TrimsAgreeUpTo100(st.history + Added(st, incoming));
  }

  /**
   The case the written trim gets wrong: 99 entries, then a tick in which the
   peer both sends and receives a message, leaves 101 entries, and the trim
   keeps entries 80 to 99, so the message just received is dropped unseen.
   */
  lemma NewestMessageLost()
    ensures var st := ChatState("alice", "hello", seq(99, _ => "x"));
      && |st.history + Added(st, "bob:> hi")| == 101
      && "bob:> hi" !in UpdateChat(st, "bob:> hi").state.history
      && !NewestKept(st, "bob:> hi", UpdateChat(st, "bob:> hi").state.history)
      && NewestKept(st, "bob:> hi", UpdateChatCorrected(st, "bob:> hi").state.history)
  {
    var st := ChatState("alice", "hello", seq(99, _ => "x"));
    var all := st.history + Added(st, "bob:> hi");
    assert Format("alice", "hello") == "alice:> hello";
    assert all == st.history + ["alice:> hello", "bob:> hi"];
    var kept := UpdateChat(st, "bob:> hi").state.history;
    assert kept == all[80..100];
    assert forall i :: 0 <= i < |kept| ==> kept[i] == "x" || kept[i] == "alice:> hello";
    assert "bob:> hi" != "x" && "bob:> hi" != "alice:> hello";
    assert kept[|kept| - 1] != "bob:> hi";
  }

  /**
   `PrintChat`: trims the history as written, then lays out exactly
   `WindowRows` rows, the newest messages in order (at most `WindowRows` of
   them) followed by empty rows.
   */
  method PrintChat(history: seq<string>) returns (kept: seq<string>, rows: seq<string>)
    ensures |history| < HistoryCap ==> kept == history
    ensures HistoryCap <= |history| ==> kept == history[80..100]
    ensures |rows| == WindowRows
    ensures var shown := if |kept| < WindowRows then |kept| else WindowRows;
      && (forall i :: 0 <= i < shown ==> rows[i] == kept[|kept| - shown + i] + "\n")
      && (forall i :: shown <= i < WindowRows ==> rows[i] == "\n")
  {
    kept := TrimAsWritten(history);
    rows := Window(kept);
  }

  /** The console window of `PrintChat` for a trimmed history `kept`. */
  method Window(kept: seq<string>) returns (rows: seq<string>)
    ensures |rows| == WindowRows
    ensures var shown := if |kept| < WindowRows then |kept| else WindowRows;
      && (forall i :: 0 <= i < shown ==> rows[i] == kept[|kept| - shown + i] + "\n")
      && (forall i :: shown <= i < WindowRows ==> rows[i] == "\n")
  {
    var size := |kept|;
    var first := if size < WindowRows then 0 else size - WindowRows;
    var line := first;
    rows := [];
    while line < size
      invariant first <= line <= size
      invariant |rows| == line - first
      invariant forall i :: 0 <= i < |rows| ==> rows[i] == kept[first + i] + "\n"
    {
      rows := rows + [kept[line] + "\n"];
      line := line + 1;
    }
    while line < WindowRows
      invariant line == size || (size < WindowRows && size <= line <= WindowRows)
      invariant |rows| == line - first
      invariant forall i :: 0 <= i < size - first ==> rows[i] == kept[first + i] + "\n"
      invariant forall i :: size - first <= i < |rows| ==> rows[i] == "\n"
    {
      rows := rows + ["\n"];
      line := line + 1;
    }
  }
}
