/** The chat screen: the four windows it lays out over the terminal, the
    input buffer that Frame edits, and what each Draw call writes into each
    window. The client it talks to is passed in as a Session value; what the
    screen asks of the client comes back as Commands. */
module Screen {
  import opened CLib
  import opened Optional
  import opened Curses
  import opened Client
  import opened Input
  import TabBar
  import Scrollback

  /** USERLIST_WIDTH. */
  const UserlistWidth: int := 20

  /** A window: its top-left cell and its size, as given to newwin. */
  datatype Region = Region(top: int, left: int, rows: int, cols: int) {
    predicate Holds(row: int, col: int) {
      top <= row < top + rows && left <= col < left + cols
    }
  }

  /** The four windows of InitWindows. */
  datatype Layout = Layout(tabs: Region, chat: Region, chatBar: Region, userlist: Region)

  /** newwin(rows, cols, top, left) on a w x h screen: a size of 0 stands
      for the rest of the screen from the window's corner; a negative one,
      which newwin refuses, leaves a window that holds no cell. */
  function NewWin(rows: int, cols: int, top: int, left: int, w: int, h: int): (r: Region)
    ensures r.top == top && r.left == left
    ensures rows != 0 ==> r.rows == rows
    ensures cols != 0 ==> r.cols == cols
    ensures rows == 0 ==> r.top + r.rows == h
    ensures cols == 0 ==> r.left + r.cols == w
    ensures forall row, col :: r.Holds(row, col) && rows == 0 ==> row < h
    ensures forall row, col :: r.Holds(row, col) && cols == 0 ==> col < w
  {
    Region(top, left, if rows == 0 then h - top else rows, if cols == 0 then w - left else cols)
  }

  /** The windows InitWindows makes for a w x h terminal: the tab bar (two
      rows at the top), the chat pane and, to its right, the user list (20
      columns) between them, and the input bar (three rows at the bottom). */
  function LayoutFor(w: int, h: int): Layout {
    Layout(
      NewWin(2, w, 0, 0, w, h),
      NewWin(h - 3 - 2, w - UserlistWidth, 2, 0, w, h),
      NewWin(3, w, h - 3, 0, w, h),
      NewWin(h - 2 - 3, UserlistWidth, 2, w - UserlistWidth, w, h))
  }

  /** The number of windows of `l` that hold a cell. */
  function Cover(l: Layout, row: int, col: int): nat {
    (if l.tabs.Holds(row, col) then 1 else 0)
      + (if l.chat.Holds(row, col) then 1 else 0)
      + (if l.chatBar.Holds(row, col) then 1 else 0)
      + (if l.userlist.Holds(row, col) then 1 else 0)
  }

  /** The windows tile a terminal more than 20 wide and more than 5 high:
      every cell is in exactly one of them, the tab bar holding the top two
      rows, the input bar the bottom three, and the chat pane and the user
      list splitting the rows between at column w - 20. */
  lemma LayoutTiles(w: int, h: int, row: int, col: int)
    requires w > UserlistWidth && h > 5
    requires 0 <= row < h && 0 <= col < w
    ensures Cover(LayoutFor(w, h), row, col) == 1
    ensures LayoutFor(w, h).tabs.Holds(row, col) <==> row < 2
    ensures LayoutFor(w, h).chatBar.Holds(row, col) <==> row >= h - 3
    ensures LayoutFor(w, h).chat.Holds(row, col) <==> 2 <= row < h - 3 && col < w - UserlistWidth
    ensures LayoutFor(w, h).userlist.Holds(row, col) <==> 2 <= row < h - 3 && col >= w - UserlistWidth
  {
  }

  /** No window lies outside the terminal. */
  lemma LayoutInside(w: int, h: int, row: int, col: int)
    requires w >= UserlistWidth && h >= 5
    requires Cover(LayoutFor(w, h), row, col) > 0
    ensures 0 <= row < h && 0 <= col < w
  {
  }

  /** At exactly 20 columns or exactly 5 rows the chat pane is given a size
      of 0, which newwin stretches to the screen edge: the chat pane then
      overlaps the user list (width 20) or the input bar (height 5). */
  lemma ZeroSizeOverlaps(w: int, h: int)
    requires w >= UserlistWidth && h >= 5
    requires w == UserlistWidth || h == 5
    ensures Cover(LayoutFor(w, h), 2, 0) >= 2
    ensures w == UserlistWidth ==> LayoutFor(w, h).chat.Holds(2, 0) && LayoutFor(w, h).userlist.Holds(2, 0)
    ensures h == 5 ==> LayoutFor(w, h).chat.Holds(2, 0) && LayoutFor(w, h).chatBar.Holds(2, 0)
  {
  }

  /** What DrawChatbar writes: '_' across row 0, then the buffer followed by
      the '_' cursor on row 1, through c_str(). */
  function ChatbarWrites(buffer: string, w: int): seq<Write> {
    TopRule(w) + [Write(1, 0, CStr(buffer + "_"), DefaultPair)]
  }

  function TopRule(w: int): (ws: seq<Write>)
    ensures |ws| == if w < 0 then 0 else w
    ensures forall x :: 0 <= x < |ws| ==> ws[x] == Write(0, x, "_", DefaultPair)
  {
    var n := if w < 0 then 0 else w;
    seq(n, x requires 0 <= x < n => Write(0, x, "_", DefaultPair))
  }

  /** The input bar shows the buffer and the cursor when the buffer has no
      NUL; otherwise it shows the buffer up to its first NUL and no cursor. */
  lemma ChatbarShowsBuffer(buffer: string, w: int)
    ensures var ws := ChatbarWrites(buffer, w);
      && |ws| == (if w < 0 then 0 else w) + 1
      && (NUL !in buffer ==> ws[|ws| - 1] == Write(1, 0, buffer + "_", DefaultPair))
      && (NUL in buffer ==> ws[|ws| - 1] == Write(1, 0, CStr(buffer), DefaultPair))
  {
    var s := buffer + "_";
    if NUL !in buffer {
      assert NUL !in s;
      CStrNoNul(s);
    } else {
      CStrPrefix(buffer, "_");
    }
  }

  /** A C string is cut at the first NUL whatever follows it. */
  lemma {:induction false} CStrPrefix(s: string, t: string)
    requires NUL in s
    ensures CStr(s + t) == CStr(s)
  {
    assert (s + t)[0] == s[0];
    if s[0] != NUL {
      assert (s + t)[1..] == s[1..] + t;
      assert NUL in s[1..];
      CStrPrefix(s[1..], t);
    }
  }

  /** How many users DrawUserlist shows for a terminal h rows high: it stops
      when the row reaches h - 5 (a row it never reaches when h < 5). */
  function Shown(users: seq<string>, h: int): (n: nat)
    ensures n <= |users|
  {
    if 0 <= h - 3 - 2 < |users| then h - 3 - 2 else |users|
  }

  /** What DrawUserlist writes: '|' down column 0 of every row, then the
      users, one per row from row 0, after the '|' in colour pair 1. */
  function UserlistWrites(users: seq<string>, h: int): seq<Write> {
    Border(h - 3 - 2) + UserWrites(users, Shown(users, h))
  }

  function Border(rows: int): (ws: seq<Write>)
    ensures |ws| == if rows < 0 then 0 else rows
    ensures forall y :: 0 <= y < |ws| ==> ws[y] == Write(y, 0, "|", DefaultPair)
  {
    var n := if rows < 0 then 0 else rows;
    seq(n, y requires 0 <= y < n => Write(y, 0, "|", DefaultPair))
  }

  function UserWrites(users: seq<string>, n: nat): (ws: seq<Write>)
    requires n <= |users|
    ensures |ws| == n
    ensures forall k :: 0 <= k < n ==> ws[k] == Write(k, 1, CStr(users[k]), HighlightPair)
  {
    seq(n, k requires 0 <= k < n => Write(k, 1, CStr(users[k]), HighlightPair))
  }

  /** The user list shows the first h - 5 users in order, user k on row k. */
  lemma UserlistInOrder(users: seq<string>, h: int, k: nat)
    requires h >= 5 && k < |users|
    ensures Write(k, 1, CStr(users[k]), HighlightPair) in UserlistWrites(users, h) <==> k < h - 5
    ensures Shown(users, h) == if |users| < h - 5 then |users| else h - 5
  {
    var ws := UserlistWrites(users, h);
    var border := Border(h - 3 - 2);
    var n := Shown(users, h);
    if k < h - 5 {
      assert ws[|border| + k] == Write(k, 1, CStr(users[k]), HighlightPair);
    } else {
      forall j | 0 <= j < |ws|
        ensures ws[j] != Write(k, 1, CStr(users[k]), HighlightPair)
      {
        if j >= |border| {
          assert ws[j] == UserWrites(users, n)[j - |border|];
        }
      }
    }
  }

  /** Every write in column 1 is a user's name, on the row of its index,
      among the users shown. */
  lemma UserlistOnlyUsers(users: seq<string>, h: int, j: nat)
    requires j < |UserlistWrites(users, h)| && UserlistWrites(users, h)[j].col == 1
    ensures var wr := UserlistWrites(users, h)[j];
      0 <= wr.row < Shown(users, h) && wr == Write(wr.row, 1, CStr(users[wr.row]), HighlightPair)
  {
    var border := Border(h - 3 - 2);
    var n := Shown(users, h);
    if j >= |border| {
      assert UserlistWrites(users, h)[j] == UserWrites(users, n)[j - |border|];
    }
  }

  /** What one Draw call writes into each window; `chat` is None when
      DrawChat returns before clearing the chat pane. */
  datatype Drawing = Drawing(tabs: seq<Write>, chat: Option<seq<Write>>, chatBar: seq<Write>, userlist: seq<Write>)

  /** What DrawChat writes for a session on a w x h terminal. */
  function ChatPane(session: Session, w: int, h: int): Option<seq<Write>>
    requires session.Valid() && w >= UserlistWidth + 2
  {
    match session.primary
    case None => None
    case Some(p) => Some(Scrollback.ChatWrites(session.rooms[p].messages, w - UserlistWidth, h - 3 - 2))
  }

  /** What Draw writes for a session and input buffer on a w x h terminal. */
  function DrawingFor(session: Session, buffer: string, w: int, h: int): Drawing
    requires session.Valid() && session.primary.Some? && w >= UserlistWidth + 2
  {
    Drawing(
      TabBar.TabBarWrites(Names(session.rooms), session.primary, w),
      ChatPane(session, w, h),
      ChatbarWrites(buffer, w),
      UserlistWrites(session.rooms[session.primary.value].users, h))
  }

  /** The screen object: the terminal size it last laid out for, the input
      buffer, and its four windows. */
  class ChatScreen {
    var scrWidth: int
    var scrHeight: int
    var inputBuffer: string
    var tabWindow: Region
    var chatWindow: Region
    var chatBarWindow: Region
    var userlistWindow: Region

    /** The windows are those of the recorded size. */
    predicate Valid()
      reads this
    {
      Layout(tabWindow, chatWindow, chatBarWindow, userlistWindow) == LayoutFor(scrWidth, scrHeight)
    }

    /** An empty input buffer; the size is one no terminal has, so the
        first Draw lays the windows out. */
    constructor()
      ensures Valid()
      ensures inputBuffer == [] && scrWidth == 0 && scrHeight == 0
    {
      scrWidth := 0;
      scrHeight := 0;
      inputBuffer := [];
      var l := LayoutFor(0, 0);
      tabWindow := l.tabs;
      chatWindow := l.chat;
      chatBarWindow := l.chatBar;
      userlistWindow := l.userlist;
    }

    /** InitWindows: the windows for the recorded size. */
    method InitWindows()
      modifies this
      ensures Valid()
      ensures scrWidth == old(scrWidth) && scrHeight == old(scrHeight)
      ensures inputBuffer == old(inputBuffer)
    {
      tabWindow := NewWin(2, scrWidth, 0, 0, scrWidth, scrHeight);
      chatWindow := NewWin(scrHeight - 3 - 2, scrWidth - UserlistWidth, 2, 0, scrWidth, scrHeight);
      chatBarWindow := NewWin(3, scrWidth, scrHeight - 3, 0, scrWidth, scrHeight);
      userlistWindow := NewWin(scrHeight - 2 - 3, UserlistWidth, 2, scrWidth - UserlistWidth, scrWidth, scrHeight);
    }

    /** OnResized: record the new size and lay the windows out for it. */
    method OnResized(w: int, h: int)
      modifies this
      ensures Valid()
      ensures scrWidth == w && scrHeight == h
      ensures inputBuffer == old(inputBuffer)
    {
      scrWidth := w;
      scrHeight := h;
      InitWindows();
    }

    /** MouseClicked: walk the tabs with a column cursor and select the
        first room whose span holds the click. */
    method MouseClicked(x: int, y: int, rooms: seq<Room>) returns (selected: Option<nat>)
      ensures selected == TabBar.Hit(Names(rooms), x, y)
    {
      ghost var lens := TabBar.Lengths(Names(rooms));
      var currentPosX := 0;
      var k := 0;
      while k < |rooms|
        invariant k <= |rooms|
        invariant currentPosX == 3 * k + TabBar.SumTo(lens, k)
        invariant TabBar.FirstHit(lens, x, y, k) == TabBar.Hit(Names(rooms), x, y)
      {
        var name := rooms[k].name;
        currentPosX := currentPosX + 3;
        var left := currentPosX;
        var right := left + |name|;
        currentPosX := currentPosX + |name|;
        if x >= left && x <= right && y <= 1 {
          return Some(k);
        }
        k := k + 1;
      }
      return None;
    }

    /** Frame: read keys until ch == -1 and dispatch each one; the keys are
        what getch() returns, ERR once they run out. */
    method Frame(keys: seq<Key>, session: Session) returns (commands: seq<Command>, consumed: nat)
      requires SelectedAtEnters(keys, Names(session.rooms), session.primary.Some?)
      modifies this
      ensures var o := Drain(keys, Names(session.rooms), old(inputBuffer));
        inputBuffer == o.buffer && commands == o.commands && consumed == o.consumed
      ensures scrWidth == old(scrWidth) && scrHeight == old(scrHeight)
      ensures Layout(tabWindow, chatWindow, chatBarWindow, userlistWindow)
        == old(Layout(tabWindow, chatWindow, chatBarWindow, userlistWindow))
    {
      ghost var names := Names(session.rooms);
      ghost var start := inputBuffer;
      commands := [];
      var i := 0;
      var ch := if i < |keys| then SignedChar(keys[i].code) else -1;
      while ch != -1
        invariant i <= |keys|
        invariant ch == if i < |keys| then SignedChar(keys[i].code) else -1
        invariant var o := Drain(keys[i..], names, inputBuffer);
          Outcome(o.buffer, commands + o.commands, i + o.consumed) == Drain(keys, names, start)
        invariant scrWidth == old(scrWidth) && scrHeight == old(scrHeight)
        invariant Layout(tabWindow, chatWindow, chatBarWindow, userlistWindow)
          == old(Layout(tabWindow, chatWindow, chatBarWindow, userlistWindow))
        decreases |keys| - i
      {
        DrainStep(keys, i, names, inputBuffer, commands);
        ghost var e := Step(keys[i], names, inputBuffer);
        var sent: seq<Command> := [];
        if ch == Backspace {
          if |inputBuffer| > 0 {
            inputBuffer := inputBuffer[..|inputBuffer| - 1];
          }
        } else if ch == Enter {
          sent := [SendChat(inputBuffer)];
          inputBuffer := "";
        } else if ch == NextRoom {
          sent := [SelectDelta(1)];
        } else if ch == Mouse {
          var evt := keys[i].mouse;
          if evt.Some? && evt.value.button1Clicked {
            var hit := MouseClicked(evt.value.x, evt.value.y, session.rooms);
            if hit.Some? {
              sent := [SelectRoom(hit.value)];
            }
          }
        } else {
          inputBuffer := inputBuffer + [NarrowToChar(ch)];
        }
        assert e == Effect(inputBuffer, sent);
        commands := commands + sent;
        i := i + 1;
        ch := if i < |keys| then SignedChar(keys[i].code) else -1;
      }
      consumed := i;
    }

    /** DrawTabs: the underline, then for each room " / ", its name one
        character at a time (in colour pair 1 for the primary room), and
        " / " after it. */
    method DrawTabs(session: Session) returns (writes: seq<Write>)
      ensures writes == TabBar.TabBarWrites(Names(session.rooms), session.primary, scrWidth)
    {
      ghost var names := Names(session.rooms);
      ghost var goal := TabBar.TabBarWrites(names, session.primary, scrWidth);
      writes := DrawUnderline(scrWidth);
      var currentPosX := 0;
      var k := 0;
      while k < |session.rooms|
        invariant k <= |session.rooms| && currentPosX >= 0
        invariant writes + TabBar.TabsFrom(names, session.primary, k, currentPosX) == goal
      {
        var pair := if session.primary == Some(k) then HighlightPair else DefaultPair;
        var tab, end := DrawTab(currentPosX, session.rooms[k].name, pair);
        assert names[k] == session.rooms[k].name;
        TabBar.TabsFromNext(names, session.primary, k, currentPosX, writes, tab, end);
        writes := writes + tab;
        currentPosX := end;
        k := k + 1;
      }
      assert writes + [] == writes;
    }

    /** The first loop of DrawTabs: '_' across row 1 of the tab window. */
    static method DrawUnderline(width: int) returns (writes: seq<Write>)
      ensures writes == TabBar.Underline(width)
    {
      writes := [];
      var x := 0;
      while x < width
        invariant 0 <= x && (x <= width || x == 0)
        invariant writes == TabBar.Underline(x)
      {
        writes := writes + [Write(1, x, "_", DefaultPair)];
        x := x + 1;
      }
    }

    /** One room's tab in DrawTabs, from column `pos`: the padding, the
        title, the padding after it; the cursor ends after the title. */
    method DrawTab(pos: int, name: string, pair: nat) returns (writes: seq<Write>, end: int)
      requires pos >= 0
      ensures writes == TabBar.TabWrites(pos, name, pair)
      ensures end == pos + 3 + |CStr(name)|
    {
      var currentPosX := pos;
      writes := [Write(0, currentPosX, " / ", DefaultPair)];
      currentPosX := currentPosX + 3;
      var title;
      title, currentPosX := DrawTitle(currentPosX, name, pair);
      writes := writes + title + [Write(0, currentPosX, " / ", DefaultPair)];
      end := currentPosX;
    }

    /** The do-while of DrawTabs: "%c" with each character of c_str() and
        then its terminating NUL, advancing the column after each character
        but the NUL (`currentPosX++` is at least 3 there, so it never ends
        the loop). */
    method DrawTitle(left: int, name: string, pair: nat) returns (writes: seq<Write>, end: int)
      requires left >= 3
      ensures writes == TabBar.CharWrites(left, CStr(name) + [NUL], pair)
      ensures end == left + |CStr(name)|
    {
      var c := CStr(name) + [NUL];
      var j := 0;
      var currentPosX := left;
      writes := [Write(0, currentPosX, TabBar.Glyph(c[j]), pair)];
      while c[j] != NUL
        invariant 0 <= j < |c| && currentPosX == left + j
        invariant writes == TabBar.CharWrites(left, c[..j + 1], pair)
        decreases |c| - j
      {
        assert j < |c| - 1;
        assert c[..j + 2][..j + 1] == c[..j + 1];
        j := j + 1;
        currentPosX := currentPosX + 1;
        writes := writes + [Write(0, currentPosX, TabBar.Glyph(c[j]), pair)];
      }
      assert j == |c| - 1;
      assert c[..j + 1] == c;
      end := currentPosX;
    }

    /** DrawChat: nothing (the pane is not even cleared) without a primary
        room; otherwise the messages of the primary room, selected and
        placed for a pane scrWidth - 20 wide and scrHeight - 5 high. */
    method DrawChat(session: Session) returns (pane: Option<seq<Write>>)
      requires session.Valid() && scrWidth >= UserlistWidth + 2
      ensures pane == ChatPane(session, scrWidth, scrHeight)
    {
      if session.primary.None? {
        return None;
      }
      var maxHeight := scrHeight - 3 - 2;
      var messages := session.rooms[session.primary.value].messages;
      var drawMessages, lineSum := Scrollback.SelectMessages(messages, scrWidth - UserlistWidth, maxHeight);
      var writes := Scrollback.DrawPane(drawMessages, lineSum);
      return Some(writes);
    }

    /** DrawChatbar. */
    method DrawChatbar() returns (writes: seq<Write>)
      ensures writes == ChatbarWrites(inputBuffer, scrWidth)
    {
      writes := [];
      var currentPosX := 0;
      while currentPosX < scrWidth
        invariant 0 <= currentPosX && (currentPosX <= scrWidth || currentPosX == 0)
        invariant writes == TopRule(currentPosX)
      {
        writes := writes + [Write(0, currentPosX, "_", DefaultPair)];
        currentPosX := currentPosX + 1;
      }
      assert writes == TopRule(scrWidth);
      writes := writes + [Write(1, 0, CStr(inputBuffer + "_"), DefaultPair)];
    }

    /** DrawUserlist: the '|' border, then the users of the primary room
        until the row reaches scrHeight - 5. */
    method DrawUserlist(session: Session) returns (writes: seq<Write>)
      requires session.Valid() && session.primary.Some?
      ensures writes == UserlistWrites(session.rooms[session.primary.value].users, scrHeight)
    {
      writes := [];
      var y := 0;
      while y < scrHeight - 3 - 2
        invariant 0 <= y && (y <= scrHeight - 3 - 2 || y == 0)
        invariant writes == Border(y)
      {
        writes := writes + [Write(y, 0, "|", DefaultPair)];
        y := y + 1;
      }
      assert writes == Border(scrHeight - 3 - 2);
      ghost var border := writes;
      var users := session.rooms[session.primary.value].users;
      var line := 0;
      while line < |users|
        invariant line <= |users|
        invariant line <= Shown(users, scrHeight)
        invariant writes == border + UserWrites(users, line)
      {
        if line == scrHeight - 3 - 2 {
          break;
        }
        writes := writes + [Write(line, 1, CStr(users[line]), HighlightPair)];
        line := line + 1;
      }
      assert line == Shown(users, scrHeight);
    }

    /** Draw: lay the windows out again when the terminal size changed, then
        draw the tab bar, the chat pane, the input bar and the user list. */
    method Draw(w: int, h: int, session: Session) returns (drawing: Drawing)
      requires Valid()
      requires session.Valid() && session.primary.Some? && w >= UserlistWidth + 2
      modifies this
      ensures Valid()
      ensures scrWidth == w && scrHeight == h && inputBuffer == old(inputBuffer)
      ensures old(scrWidth) == w && old(scrHeight) == h ==>
        Layout(tabWindow, chatWindow, chatBarWindow, userlistWindow)
          == old(Layout(tabWindow, chatWindow, chatBarWindow, userlistWindow))
      ensures drawing == DrawingFor(session, inputBuffer, w, h)
    {
      if w != scrWidth || h != scrHeight {
        OnResized(w, h);
      }
      var tabs := DrawTabs(session);
      var chat := DrawChat(session);
      var chatBar := DrawChatbar();
      var userlist := DrawUserlist(session);
      drawing := Drawing(tabs, chat, chatBar, userlist);
    }
  }
}
