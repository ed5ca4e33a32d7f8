/** The chat pane of DrawChat and DrawChatEntry: which messages are shown
    and at which rows. Messages are taken newest first, each decoded and
    wrapped as "<user>: <text>" to the pane's width, while the running line
    count stays within the pane's height; the message that pushes the count
    past the height is still taken, and the count is then clamped to the
    height. Entries are stacked upward from the clamped count, so the newest
    ends on row count - 1: the pane's last row when the lines reach the
    height, and above it otherwise, where the oldest starts at row 0. A
    taken message that does not fit starts above the pane. */
module Scrollback {
  import opened CLib
  import opened Curses
  import opened Client
  import HtmlDecode
  import LineWrap

  /** What is drawn for one message: its user and its wrapped lines. */
  datatype DrawMessage = DrawMessage(user: string, lines: seq<string>)

  /** The entry of a message for a pane `width` columns wide. */
  function EntryOf(m: Message, width: nat): DrawMessage
    requires width >= 2
  {
    DrawMessage(m.user, LineWrap.Wrap(HtmlDecode.Scan(m.user + ": " + m.text, 0), width))
  }

  /** The entries of all messages, newest first. */
  function Entries(messages: seq<Message>, width: nat): (es: seq<DrawMessage>)
    requires width >= 2
    ensures |es| == |messages|
    ensures forall k :: 0 <= k < |es| ==> es[k] == EntryOf(messages[|messages| - 1 - k], width)
  {
    seq(|messages|, k requires 0 <= k < |messages| => EntryOf(messages[|messages| - 1 - k], width))
  }

  /** The number of lines of a run of entries. */
  function Total(es: seq<DrawMessage>): nat {
    if es == [] then 0 else |es[0].lines| + Total(es[1..])
  }

  lemma {:induction false} TotalAppend(a: seq<DrawMessage>, b: seq<DrawMessage>)
    ensures Total(a + b) == Total(a) + Total(b)
  {
    if a != [] {
      assert (a + b)[1..] == a[1..] + b;
      TotalAppend(a[1..], b);
    } else {
      assert a + b == b;
    }
  }

  lemma TotalSnoc(es: seq<DrawMessage>, k: nat)
    requires k < |es|
    ensures Total(es[..k + 1]) == Total(es[..k]) + |es[k].lines|
  {
    assert es[..k + 1] == es[..k] + [es[k]];
    TotalAppend(es[..k], [es[k]]);
    assert [es[k]][1..] == [];
  }

  /** Counting a longer run of entries never gives fewer lines. */
  lemma {:induction false} TotalMonotone(es: seq<DrawMessage>, j: nat, k: nat)
    requires j <= k <= |es|
    ensures Total(es[..j]) <= Total(es[..k])
    decreases k - j
  {
    if j < k {
      TotalSnoc(es, j);
      TotalMonotone(es, j + 1, k);
    }
  }

  /** How many entries, newest first, the assembly loop takes when `room`
      lines are left: it stops after the first entry that makes the running
      count exceed the room, and takes all entries when none does. */
  function SelectCount(es: seq<DrawMessage>, room: int): (n: nat)
    ensures n <= |es|
    ensures forall k :: 0 < k < n ==> Total(es[..k]) <= room
    ensures n < |es| ==> 0 < n && Total(es[..n]) > room
  {
    if es == [] then 0
    else if |es[0].lines| > room then
      assert es[..1][1..] == [];
      1
    else
      var n := 1 + SelectCount(es[1..], room - |es[0].lines|);
      assert forall k :: 0 < k <= |es| ==> es[..k][1..] == es[1..][..k - 1];
      n
  }

  /** The entries taken, newest first. */
  function Selected(es: seq<DrawMessage>, maxHeight: int): seq<DrawMessage> {
    es[..SelectCount(es, maxHeight)]
  }

  /** The line count after the loop: clamped to the height when the entries
      taken overflow it. */
  function Clamped(es: seq<DrawMessage>, maxHeight: int): int {
    var sel := Selected(es, maxHeight);
    if sel != [] && Total(sel) > maxHeight then maxHeight else Total(sel)
  }

  /** The row at which entry k of `sel` starts when the stack ends with row
      `bottom` - 1. */
  function StartRow(sel: seq<DrawMessage>, bottom: int, k: nat): int
    requires k < |sel|
  {
    bottom - Total(sel[..k + 1])
  }

  /** The writes of DrawChatEntry for an entry starting at `row`: each line
      on its own row from column 0, then the user name and ": " in colour
      pair 2 over the start of the first row. */
  function EntryWrites(row: int, user: string, lines: seq<string>): (ws: seq<Write>)
    ensures |ws| == |lines| + 1
  {
    LineWrites(row, lines) + [Write(row, 0, CStr(user + ": "), UsernamePair)]
  }

  /** Line k on row `row` + k, from column 0. */
  function LineWrites(row: int, lines: seq<string>): (ws: seq<Write>)
    ensures |ws| == |lines|
  {
    if lines == [] then []
    else LineWrites(row, lines[..|lines| - 1]) + [Write(row + |lines| - 1, 0, CStr(lines[|lines| - 1]), DefaultPair)]
  }

  lemma {:induction false} LineWritesAt(row: int, lines: seq<string>, k: nat)
    requires k < |lines|
    ensures LineWrites(row, lines)[k] == Write(row + k, 0, CStr(lines[k]), DefaultPair)
  {
    if k < |lines| - 1 {
      LineWritesAt(row, lines[..|lines| - 1], k);
    }
  }

  /** The writes of the drawing loop: the entries in order, each ending
      where the one before it starts, the first ending at `bottom` - 1. */
  function PaneWrites(sel: seq<DrawMessage>, bottom: int): seq<Write> {
    if sel == [] then []
    else
      var row := bottom - |sel[0].lines|;
      EntryWrites(row, sel[0].user, sel[0].lines) + PaneWrites(sel[1..], row)
  }

  /** What DrawChat writes into the chat pane for the messages of the
      selected room. */
  function ChatWrites(messages: seq<Message>, width: nat, maxHeight: int): seq<Write>
    requires width >= 2
  {
    var es := Entries(messages, width);
    PaneWrites(Selected(es, maxHeight), Clamped(es, maxHeight))
  }

  /** DrawChatEntry: one write per line, the user name over the first row;
      the number of rows used is returned. */
  method DrawChatEntry(line: int, user: string, lines: seq<string>) returns (writes: seq<Write>, drawn: int)
    ensures writes == EntryWrites(line, user, lines)
    ensures drawn == |lines|
  {
    var startLine := line;
    var row := line;
    writes := [];
    var k := 0;
    while k < |lines|
      invariant 0 <= k <= |lines| && row == line + k
      invariant writes == LineWrites(line, lines[..k])
    {
      assert lines[..k + 1][..k] == lines[..k];
      writes := writes + [Write(row, 0, CStr(lines[k]), DefaultPair)];
      row := row + 1;
      k := k + 1;
    }
    assert lines[..k] == lines;
    writes := writes + [Write(startLine, 0, CStr(user + ": "), UsernamePair)];
    drawn := |lines|;
  }

  /** The assembly loop of DrawChat: walk the messages from the newest,
      wrap each, and stop after the first that pushes the line count past
      `maxHeight`, clamping the count to it. */
  method SelectMessages(messages: seq<Message>, width: nat, maxHeight: int)
    returns (drawMessages: seq<DrawMessage>, lineSum: int)
    requires width >= 2
    ensures drawMessages == Selected(Entries(messages, width), maxHeight)
    ensures lineSum == Clamped(Entries(messages, width), maxHeight)
  {
    ghost var es := Entries(messages, width);
    var t := |messages|;
    lineSum := 0;
    drawMessages := [];
    while t != 0
      invariant 0 <= t <= |messages|
      invariant drawMessages == es[..|messages| - t]
      invariant lineSum == Total(drawMessages)
      invariant forall k :: 0 < k <= |drawMessages| ==> Total(es[..k]) <= maxHeight
      decreases t
    {
      t := t - 1;
      var decoded := HtmlDecode.HTMLDecode(messages[t].user + ": " + messages[t].text);
      var lines := LineWrap.GetWrappedLines(decoded, width);
      var dm := DrawMessage(messages[t].user, lines);
      TakeNext(es, drawMessages, dm);
      drawMessages := drawMessages + [dm];
      lineSum := lineSum + |lines|;
      if lineSum > maxHeight {
        SelectionStops(es, maxHeight, |drawMessages|);
        lineSum := maxHeight;
        return;
      }
    }
    SelectionTakesAll(es, maxHeight);
  }

  /** One step of the assembly loop: the next entry extends the prefix. */
  lemma TakeNext(es: seq<DrawMessage>, taken: seq<DrawMessage>, dm: DrawMessage)
    requires |taken| < |es| && taken == es[..|taken|] && dm == es[|taken|]
    ensures taken + [dm] == es[..|taken| + 1]
    ensures Total(taken + [dm]) == Total(taken) + |dm.lines|
  {
    PrefixSnoc(es, |taken|);
    TotalOne(taken, dm);
  }

  lemma PrefixSnoc<T>(xs: seq<T>, n: nat)
    requires n < |xs|
    ensures xs[..n + 1] == xs[..n] + [xs[n]]
  {
  }

  lemma TotalOne(taken: seq<DrawMessage>, dm: DrawMessage)
    ensures Total(taken + [dm]) == Total(taken) + |dm.lines|
  {
    TotalAppend(taken, [dm]);
    assert [dm][1..] == [];
  }

  /** When the first k - 1 entries fit and the first k do not, k entries
      are taken. */
  lemma SelectionStops(es: seq<DrawMessage>, maxHeight: int, k: nat)
    requires 0 < k <= |es|
    requires forall j :: 0 < j < k ==> Total(es[..j]) <= maxHeight
    requires Total(es[..k]) > maxHeight
    ensures SelectCount(es, maxHeight) == k
  {
  }

  /** When every prefix fits, all entries are taken. */
  lemma SelectionTakesAll(es: seq<DrawMessage>, maxHeight: int)
    requires forall k :: 0 < k <= |es| ==> Total(es[..k]) <= maxHeight
    ensures SelectCount(es, maxHeight) == |es|
  {
  }

  /** The drawing loop of DrawChat: each entry is drawn by DrawChatEntry at
      the running line count minus its length, and the count goes down by
      the rows it used. */
  method DrawPane(sel: seq<DrawMessage>, lineSum: int) returns (writes: seq<Write>)
    ensures writes == PaneWrites(sel, lineSum)
  {
    var cur := lineSum;
    var k := 0;
    writes := [];
    while k < |sel|
      invariant 0 <= k <= |sel|
      invariant writes + PaneWrites(sel[k..], cur) == PaneWrites(sel, lineSum)
    {
      var dm := sel[k];
      var ws, drawn := DrawChatEntry(cur - |dm.lines|, dm.user, dm.lines);
      PaneWritesNext(sel, k, cur, writes, ws);
      writes := writes + ws;
      cur := cur - drawn;
      k := k + 1;
    }
    assert writes + [] == writes;
  }

  /** One step of the pane loop: entry k goes on the rows just above `bottom`,
      and the older entries above it. */
  lemma PaneWritesNext(sel: seq<DrawMessage>, k: nat, bottom: int, done: seq<Write>, ws: seq<Write>)
    requires k < |sel|
    requires ws == EntryWrites(bottom - |sel[k].lines|, sel[k].user, sel[k].lines)
    ensures done + PaneWrites(sel[k..], bottom)
      == (done + ws) + PaneWrites(sel[k + 1..], bottom - |sel[k].lines|)
  {
    assert sel[k..][1..] == sel[k + 1..];
    var rest := PaneWrites(sel[k + 1..], bottom - |sel[k].lines|);
    assert PaneWrites(sel[k..], bottom) == ws + rest;
    assert done + (ws + rest) == (done + ws) + rest;
  }

  /** The loop's line count: on overflow it is the height and the entries
      taken hold more lines than that; otherwise every entry is taken and
      the count is their exact total. */
  lemma LineSumClamped(es: seq<DrawMessage>, maxHeight: int)
    requires maxHeight >= 0
    ensures Total(es) <= maxHeight ==>
      Selected(es, maxHeight) == es && Clamped(es, maxHeight) == Total(es)
    ensures Total(es) > maxHeight ==>
      Clamped(es, maxHeight) == maxHeight && Total(Selected(es, maxHeight)) > maxHeight
  {
    var n := SelectCount(es, maxHeight);
    assert es[..|es|] == es;
    if Total(es) <= maxHeight && n < |es| {
      TotalMonotone(es, n, |es|);
    }
  }

  /** Consecutive entries are contiguous: each older entry ends on the row
      above the first row of the newer one. */
  lemma EntriesContiguous(sel: seq<DrawMessage>, bottom: int, k: nat)
    requires k + 1 < |sel|
    ensures StartRow(sel, bottom, k + 1) + |sel[k + 1].lines| == StartRow(sel, bottom, k)
  {
    TotalSnoc(sel, k + 1);
  }

  /** The newest entry ends on the bottom row, `bottom` - 1. */
  lemma NewestAtBottom(sel: seq<DrawMessage>, bottom: int)
    requires |sel| > 0
    ensures StartRow(sel, bottom, 0) + |sel[0].lines| == bottom
  {
    TotalSnoc(sel, 0);
  }

  /** The newest entry ends on the pane's last row exactly when the lines of
      the messages reach the pane height (an overflow or an exact fit);
      otherwise it ends on row Total - 1, with empty rows below it. */
  lemma ReachesBottom(es: seq<DrawMessage>, maxHeight: int)
    requires maxHeight >= 0 && |es| > 0
    ensures var sel := Selected(es, maxHeight); var bottom := Clamped(es, maxHeight);
      && |sel| > 0
      && StartRow(sel, bottom, 0) + |sel[0].lines| == bottom
      && (bottom == maxHeight <==> Total(es) >= maxHeight)
      && (Total(es) < maxHeight ==> bottom == Total(es))
  {
    LineSumClamped(es, maxHeight);
    NewestAtBottom(Selected(es, maxHeight), Clamped(es, maxHeight));
  }

  /** On overflow every entry taken but the oldest lies within rows
      [0, maxHeight), and the oldest starts above the pane. */
  lemma OverflowPlacement(es: seq<DrawMessage>, maxHeight: int)
    requires maxHeight >= 0
    requires Total(es) > maxHeight
    ensures var sel := Selected(es, maxHeight); var bottom := Clamped(es, maxHeight);
      && bottom == maxHeight
      && |sel| > 0
      && (forall k :: 0 <= k < |sel| - 1 ==>
            0 <= StartRow(sel, bottom, k) && StartRow(sel, bottom, k) + |sel[k].lines| <= maxHeight)
      && StartRow(sel, bottom, |sel| - 1) < 0
  {
    LineSumClamped(es, maxHeight);
    var sel := Selected(es, maxHeight);
    var n := SelectCount(es, maxHeight);
    forall k | 0 <= k < |sel| - 1
      ensures 0 <= StartRow(sel, maxHeight, k) && StartRow(sel, maxHeight, k) + |sel[k].lines| <= maxHeight
    {
      assert sel[..k + 1] == es[..k + 1];
      TotalSnoc(sel, k);
    }
    assert sel[..|sel|] == sel;
  }

  /** Without overflow the entries fill rows [0, total) exactly: the oldest
      starts at row 0 and none leaves the pane. */
  lemma FitPlacement(es: seq<DrawMessage>, maxHeight: int)
    requires maxHeight >= 0
    requires 0 < |es| && Total(es) <= maxHeight
    ensures var sel := Selected(es, maxHeight); var bottom := Clamped(es, maxHeight);
      && sel == es
      && StartRow(sel, bottom, |sel| - 1) == 0
      && forall k :: 0 <= k < |sel| ==>
           0 <= StartRow(sel, bottom, k) && StartRow(sel, bottom, k) + |sel[k].lines| <= bottom <= maxHeight
  {
    LineSumClamped(es, maxHeight);
    assert es[..|es|] == es;
    forall k | 0 <= k < |es|
      ensures 0 <= StartRow(es, Total(es), k) && StartRow(es, Total(es), k) + |es[k].lines| <= Total(es)
    {
      TotalMonotone(es, k + 1, |es|);
      TotalSnoc(es, k);
    }
  }

  /** When the two newest entries exactly fill the height, the loop has not
      yet exceeded it, so a third entry is still taken (the comparison is
      `>`, not `>=`). */
  lemma ExactFitStillIncludesNext(es: seq<DrawMessage>, maxHeight: int)
    requires |es| >= 3 && Total(es[..2]) == maxHeight
    ensures SelectCount(es, maxHeight) >= 3
  {
    TotalMonotone(es, 1, 2);
  }

  /** Entry k of the stack is written by the drawing loop at its start row:
      its lines on consecutive rows and its user name over the first. */
  lemma {:induction false} EntryDrawnAtStartRow(sel: seq<DrawMessage>, bottom: int, k: nat)
    requires k < |sel|
    ensures forall w :: w in EntryWrites(StartRow(sel, bottom, k), sel[k].user, sel[k].lines) ==>
      w in PaneWrites(sel, bottom)
  {
    var row := bottom - |sel[0].lines|;
    assert PaneWrites(sel, bottom) == EntryWrites(row, sel[0].user, sel[0].lines) + PaneWrites(sel[1..], row);
    if k == 0 {
      TotalSnoc(sel, 0);
    } else {
      EntryDrawnAtStartRow(sel[1..], row, k - 1);
      assert sel[..k + 1][1..] == sel[1..][..k];
      assert StartRow(sel[1..], row, k - 1) == StartRow(sel, bottom, k);
    }
  }
}
