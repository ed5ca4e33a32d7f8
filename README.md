# Chat screen of rohbotcon, modelled in Dafny

rohbotcon is a terminal client for a chat service. Its `ChatScreen` draws the
session into four curses windows:

- a tab bar, with one tab per chat room and the primary room highlighted;
- a chat pane, showing the newest messages of the primary room wrapped to the
  pane width, oldest first;
- an input bar, echoing what the user is typing;
- a user list, showing the users of the primary room.

Each frame, `Frame` reads the pending keys. Backspace, Enter, `_` and mouse
clicks on tabs become edits of the input buffer or requests to the client.
Any other key is typed into the buffer.

This project models that screen:

- the HTML character-reference decoding of message text;
- the word wrapping and `ltrim` of lines;
- the selection of the newest messages that fill the pane, and where each is placed;
- the tab bar layout and its click hit test;
- the key dispatch of a frame;
- the window layout, including re-layout on resize;
- what each draw routine writes.

A drawing is a sequence of `Write(row, col, text, colorPair)` values, one per
`mvwprintw` call. Requests to the client are `Command` values: `SendChat`,
`SelectDelta` and `SelectRoom`. The session is a value: rooms, their messages
and users, and the index of the primary room.

Modules:

- `CLib`: `c_str`, `find`, `rfind`, `atoi` and the `int`-to-`char`
  conversion.
- `Optional`, `Curses` and `Client`: the value types.
- `HtmlDecode`, `LineWrap`, `Scrollback`, `TabBar` and `Input`: the components.
- `Screen`: the `ChatScreen` class with the fields of `ChatScreen.hpp`.

The loops of the source are methods with loop invariants. Each is proved equal
to a specification function, and the lemmas state what that function means.

How the code differs from what a reader might expect:

- **Scrollback.** The assembly loop compares with `>` and keeps the message that
  overflows the pane. So the messages taken can hold more lines than the pane
  height, and the oldest one then starts above the pane (`OverflowPlacement`).
  When the two newest messages fill the pane exactly, a third one is still
  taken (`ExactFitStillIncludesNext`). The newest message ends on row
  `lineSum - 1`. That is the pane's last row exactly when the lines taken reach
  the pane height, by an overflow or an exact fit (`ReachesBottom`).
  Otherwise the oldest message starts at row 0 and the rows below the newest
  stay empty (`FitPlacement`). The model follows the code.
- **Wrapping.** At width 7, `"hello world foo"` becomes `["hello", "world",
  "foo"]`, not `["hello", "world foo"]`. The first line is cut at the space
  at index 5, leaving `" world foo"`. That rest is cut again at its own last
  space within the width, the one before `foo`, and each piece is trimmed
  (`BreaksFallOnSpaces`, `SecondBreak`). The model follows the code.
- **HTML decoding.** It is not a single pass. After `&lt;`, `&gt;` and `&quot;`
  the scan steps back two characters and can decode again what it produced
  (`StepBackDecodesAgain`). A first `&lt;`, `&gt;` or `&quot;` at index 0 or 1
  ends the scan (`FirstReferenceEndsScan`).

## Model

| member | source | states |
|---|---|---|
| CLib.Find | rohbutt/source/Gui/Screen/ChatScreen.cpp:306 | the first index at or after `from` holding the character, or -1 when there is none |
| CLib.RFind | rohbutt/source/Gui/Screen/ChatScreen.cpp:237 | the last index holding the character, or -1 when there is none |
| CLib.CStr | rohbutt/source/Gui/Screen/ChatScreen.cpp:158 | what `c_str()` shows: the prefix of the string before its first NUL |
| CLib.CStrNoNul | rohbutt/source/Gui/Screen/ChatScreen.cpp:229 | a string without NUL is its own C string |
| CLib.Atoi | rohbutt/source/Gui/Screen/ChatScreen.cpp:319 | `atoi` gives 0 for a string that does not start with white space, a sign or a digit; overflow of `int` is not modelled |
| CLib.AtoiSkipsSpace | rohbutt/source/Gui/Screen/ChatScreen.cpp:319 | leading white space is skipped: a payload such as `" 65"` reads as `"65"` |
| CLib.AtoiSigned | rohbutt/source/Gui/Screen/ChatScreen.cpp:319 | a `-` before a numeral negates it and a `+` does not |
| CLib.AtoiCStr | rohbutt/source/Gui/Screen/ChatScreen.cpp:319 | `atoi(num.c_str())` reads the same as `atoi` of the whole payload, because a NUL stops it anyway |
| CLib.AtoiNumeral | rohbutt/source/Gui/Screen/ChatScreen.cpp:319 | `atoi` reads back the decimal numeral of every n, whatever non-digit follows it |
| CLib.NarrowToChar | rohbutt/source/Gui/Screen/ChatScreen.cpp:319 | `char ch = v` keeps the low byte of v: a byte congruent to v modulo 256 |
| HtmlDecode.HTMLDecode | rohbutt/source/Gui/Screen/ChatScreen.cpp:274-331 | the in-place loop ends with the string the decoding state machine `Scan` gives, including the step back and the unsigned end test |
| HtmlDecode.DecodePieces | rohbutt/source/Gui/Screen/ChatScreen.cpp:278-328 | a text made of plain characters and well-formed references decodes to each piece's character, provided no `&lt;`/`&gt;`/`&quot;` is the first or second piece or follows two pieces that stand for `&#` |
| HtmlDecode.DecodeEndsEarly | rohbutt/source/Gui/Screen/ChatScreen.cpp:282-296 | when the first `&lt;`/`&gt;`/`&quot;` is piece 0 or 1, the scan stops right after replacing it and the rest stays encoded |
| HtmlDecode.ScanStep | rohbutt/source/Gui/Screen/ChatScreen.cpp:280-327 | one pass of the loop turns the next piece into its character and moves on to the piece after it, or ends after a step back from index 0 or 1 |
| HtmlDecode.ScanNamedAt | rohbutt/source/Gui/Screen/ChatScreen.cpp:282-301 | a named reference is replaced by its character; the scan continues after `&amp;` and two characters back after the others, or ends when that is before the start |
| HtmlDecode.ScanNumericAt | rohbutt/source/Gui/Screen/ChatScreen.cpp:304-323 | `&#payload;` with no `;` in the payload and no leading `x` is replaced by the low byte of atoi of the payload, and the scan continues after it |
| HtmlDecode.SkipBack | rohbutt/source/Gui/Screen/ChatScreen.cpp:286 | after the step back, the two characters before the replacement are passed unchanged unless they are `&#` |
| HtmlDecode.ReferenceByte | rohbutt/source/Gui/Screen/ChatScreen.cpp:319 | `char ch = atoi(num.c_str())` is the low byte of atoi of the whole payload |
| HtmlDecode.NamedReferenceDecoded | rohbutt/source/Gui/Screen/ChatScreen.cpp:282-301 | a named reference between runs of text without `&` becomes its character, and everything else comes back as it was |
| HtmlDecode.NumericReferenceDecoded | rohbutt/source/Gui/Screen/ChatScreen.cpp:304-323 | a decimal reference between runs of text without `&` becomes the low byte of atoi of its payload |
| HtmlDecode.DecimalReferenceDecoded | rohbutt/source/Gui/Screen/ChatScreen.cpp:319-322 | `&#n;` with n written in decimal becomes the byte n mod 256 |
| HtmlDecode.HashReferenceLeftAlone | rohbutt/source/Gui/Screen/ChatScreen.cpp:304-315 | a hexadecimal reference, or `&#` with no `;` after it, is left as it is |
| HtmlDecode.StrayAmpersandLeftAlone | rohbutt/source/Gui/Screen/ChatScreen.cpp:280-327 | an `&` followed by neither `#` nor the rest of `lt;`, `gt;`, `quot;` or `amp;` stays as it is, between runs of text without `&` |
| HtmlDecode.StrayAmpersandExamples | rohbutt/source/Gui/Screen/ChatScreen.cpp:280-327 | `"AT&T"` and `"a & b"` come back unchanged |
| HtmlDecode.NoAmpersandUnchanged | rohbutt/source/Gui/Screen/ChatScreen.cpp:278-280 | a text without `&` comes back unchanged |
| HtmlDecode.AmpersandNotDecodedTwice | rohbutt/source/Gui/Screen/ChatScreen.cpp:297-301 | the `&` produced by `&amp;` is not read again: `a&amp;lt;` gives `a&lt;` |
| HtmlDecode.FirstReferenceEndsScan | rohbutt/source/Gui/Screen/ChatScreen.cpp:282-286 | `&lt;&gt;` gives `<&gt;`: the step back from index 0 ends the loop |
| HtmlDecode.StepBackDecodesAgain | rohbutt/source/Gui/Screen/ChatScreen.cpp:282-323 | `&amp;#&lt;;` gives a single NUL byte: after the step back the `&#` made by `&amp;` starts a decimal reference that swallows the `<` |
| HtmlDecode.RenderAt | rohbutt/source/Gui/Screen/ChatScreen.cpp:274-331 | character k of the intended decoding is the character piece k stands for |
| LineWrap.LTrim | rohbutt/source/Gui/Screen/ChatScreen.cpp:203-210 | `ltrim` returns the string from its first character that is not a space |
| LineWrap.EmitFacts | rohbutt/source/Gui/Screen/ChatScreen.cpp:229 | a pushed line holds no NUL, does not start with a space, is no longer than the line it came from, and has no newline if that had none |
| LineWrap.BreakAtSpace | rohbutt/source/Gui/Screen/ChatScreen.cpp:237-243 | a full line with a space at an index above 0 is broken at its last space |
| LineWrap.BreakWithoutSpace | rohbutt/source/Gui/Screen/ChatScreen.cpp:239-241 | without such a space, the break is at the last character |
| LineWrap.GetWrappedLines | rohbutt/source/Gui/Screen/ChatScreen.cpp:212-257 | the restarting loop returns the lines of the wrapping function `Wrap` |
| LineWrap.ShortText | rohbutt/source/Gui/Screen/ChatScreen.cpp:253-254 | a text that fits and has no newline comes back as one trimmed line |
| LineWrap.NewlineEndsLine | rohbutt/source/Gui/Screen/ChatScreen.cpp:225-232 | a newline ends the line and is dropped; the text after it is wrapped afresh |
| LineWrap.FullLine | rohbutt/source/Gui/Screen/ChatScreen.cpp:233-250 | a line that fills up ends at its break point, and the text from the break point on is wrapped afresh |
| LineWrap.BreakAtLastSpace | rohbutt/source/Gui/Screen/ChatScreen.cpp:237-247 | a full line is broken at its last space with index above 0, and that space starts the rest |
| LineWrap.HardBreak | rohbutt/source/Gui/Screen/ChatScreen.cpp:240-247 | with no such space, the line is broken one character short and its last character starts the rest |
| LineWrap.ForcedBreakShort | rohbutt/source/Gui/Screen/ChatScreen.cpp:233-250 | a line ended by a full line is at most width - 1 long |
| LineWrap.WrapFits | rohbutt/source/Gui/Screen/ChatScreen.cpp:212-257 | for width at least 2, every line fits the width and holds no newline and no NUL, and no line starts with a space |
| LineWrap.WrapKeepsVisible | rohbutt/source/Gui/Screen/ChatScreen.cpp:212-257 | wrapping loses, adds and reorders no visible character: without spaces and newlines the lines read back as the text |
| LineWrap.ThreeLines | rohbutt/source/Gui/Screen/ChatScreen.cpp:225-232 | `"a\nb\nc"` at width 10 is `["a", "b", "c"]` |
| LineWrap.SecondBreak | rohbutt/source/Gui/Screen/ChatScreen.cpp:233-254 | `" world foo"` at width 7 is cut at the space before `foo` into `" world"` and `" foo"`, each trimmed |
| LineWrap.BreaksFallOnSpaces | rohbutt/source/Gui/Screen/ChatScreen.cpp:233-250 | `"hello world foo"` at width 7 is `["hello", "world", "foo"]` |
| Scrollback.Entries | rohbutt/source/Gui/Screen/ChatScreen.cpp:354-362 | entry k is message k from the newest, with the lines of its decoded and wrapped `user: text` |
| Scrollback.SelectCount | rohbutt/source/Gui/Screen/ChatScreen.cpp:355-373 | the loop takes entries newest first: each shorter prefix fits in the height, and when not all are taken the prefix taken exceeds it |
| Scrollback.SelectMessages | rohbutt/source/Gui/Screen/ChatScreen.cpp:349-373 | the assembly loop returns the entries selected and the clamped line count |
| Scrollback.LineSumClamped | rohbutt/source/Gui/Screen/ChatScreen.cpp:366-372 | without overflow every entry is taken and the count is their total; on overflow the count is the height and the entries taken hold more lines than that |
| Scrollback.DrawChatEntry | rohbutt/source/Gui/Screen/ChatScreen.cpp:259-272 | one write per line on consecutive rows from column 0, then the user name and `": "` in colour pair 2 over the first row; returns the number of lines |
| Scrollback.LineWritesAt | rohbutt/source/Gui/Screen/ChatScreen.cpp:263-264 | line k of an entry is written on its row plus k, from column 0 |
| Scrollback.DrawPane | rohbutt/source/Gui/Screen/ChatScreen.cpp:375-376 | the drawing loop draws each entry at the running count minus its length and lowers the count by the rows used |
| Scrollback.EntriesContiguous | rohbutt/source/Gui/Screen/ChatScreen.cpp:375-376 | each older entry ends on the row just above the first row of the newer one |
| Scrollback.NewestAtBottom | rohbutt/source/Gui/Screen/ChatScreen.cpp:375-376 | the newest entry ends on the last row of the stack, row `lineSum - 1` |
| Scrollback.ReachesBottom | rohbutt/source/Gui/Screen/ChatScreen.cpp:366-376 | the newest entry ends on the pane's last row exactly when the messages' lines reach the pane height; otherwise it ends on row Total - 1 |
| Scrollback.OverflowPlacement | rohbutt/source/Gui/Screen/ChatScreen.cpp:366-376 | on overflow, every entry taken but the oldest lies inside the pane rows, and the oldest starts above the pane |
| Scrollback.FitPlacement | rohbutt/source/Gui/Screen/ChatScreen.cpp:366-376 | without overflow all entries are taken, the oldest starts at row 0, and none leaves the pane |
| Scrollback.ExactFitStillIncludesNext | rohbutt/source/Gui/Screen/ChatScreen.cpp:368 | when the two newest entries fill the height exactly, a third is still taken |
| Scrollback.EntryDrawnAtStartRow | rohbutt/source/Gui/Screen/ChatScreen.cpp:375-376 | every write of entry k at its start row is among the pane's writes |
| TabBar.FirstHit | rohbutt/source/Gui/Screen/ChatScreen.cpp:59-75 | the room selected is the first whose span `[left, left + length]` holds x with y <= 1, and None means no span holds the click |
| TabBar.TabsAdvance | rohbutt/source/Gui/Screen/ChatScreen.cpp:62-67 | each tab's span ends at least 3 columns before any later tab's starts |
| TabBar.SpansDisjoint | rohbutt/source/Gui/Screen/ChatScreen.cpp:62-70 | no column is in two spans, so the first hit is the only one |
| TabBar.HitInSpan | rohbutt/source/Gui/Screen/ChatScreen.cpp:69-73 | a click in room k's span selects room k |
| TabBar.NoHitBelowBar | rohbutt/source/Gui/Screen/ChatScreen.cpp:70 | a click below row 1 selects nothing |
| TabBar.SeparatorClicks | rohbutt/source/Gui/Screen/ChatScreen.cpp:62-70 | the `/` before room k and the space after it select nothing; the space before it selects room k - 1 |
| TabBar.UnderlineAt | rohbutt/source/Gui/Screen/ChatScreen.cpp:139-140 | write x of the underline is `_` at column x of row 1, for every column of the screen |
| TabBar.Glyph | rohbutt/source/Gui/Screen/ChatScreen.cpp:161 | `"%c"` of a character shows the C string of that one character, nothing for NUL |
| TabBar.CharWritesAt | rohbutt/source/Gui/Screen/ChatScreen.cpp:159-162 | write j of a title is character j at column left + j |
| TabBar.DrawnAsMeasured | rohbutt/source/Gui/Screen/ChatScreen.cpp:143-162 | for names without NUL, DrawTabs puts room k's name at the column MouseClicked measures for it |
| TabBar.ClickOnDrawnName | rohbutt/source/Gui/Screen/ChatScreen.cpp:143-169 | character j of a NUL-free room name is drawn at the column whose click selects that room, in colour pair 1 exactly when it is the primary room |
| Input.SignedChar | rohbutt/source/Gui/Screen/ChatScreen.cpp:80 | `char ch = getch()` keeps the low byte as a signed char |
| Input.Step | rohbutt/source/Gui/Screen/ChatScreen.cpp:84-112 | one pass of the switch sends at most one command and leaves the buffer cleared, as it was, one character shorter, or one byte longer |
| Input.DrainConsumes | rohbutt/source/Gui/Screen/ChatScreen.cpp:80-115 | the frame dispatches exactly the keys before the first stop, all of them when there is none, and sends at most one command per key |
| Input.BackspaceErases | rohbutt/source/Gui/Screen/ChatScreen.cpp:86-89 | backspace removes exactly the last character, leaves an empty buffer empty, and sends nothing |
| Input.EnterSends | rohbutt/source/Gui/Screen/ChatScreen.cpp:91-94 | Enter sends the whole buffer to the primary room and empties the buffer |
| Input.NextRoomKeepsBuffer | rohbutt/source/Gui/Screen/ChatScreen.cpp:96-98 | `_` asks for the next room and leaves the buffer alone |
| Input.MouseSelects | rohbutt/source/Gui/Screen/ChatScreen.cpp:100-108 | a mouse key leaves the buffer alone, and selects room r exactly when button 1 was clicked on room r's tab |
| Input.OtherKeyAppends | rohbutt/source/Gui/Screen/ChatScreen.cpp:110-111 | any other key appends its byte to the buffer |
| Input.TypeThenErase | rohbutt/source/Gui/Screen/ChatScreen.cpp:86-111 | a typed character followed by backspace leaves the buffer as it was |
| Input.TypingAppends | rohbutt/source/Gui/Screen/ChatScreen.cpp:82-115 | keys that type s append s in order and send nothing |
| Input.DrainAppend | rohbutt/source/Gui/Screen/ChatScreen.cpp:82-115 | dispatch is sequential: two runs of keys, the first without a stop, drain as the first and then the second from the buffer it left |
| Input.StopEndsFrame | rohbutt/source/Gui/Screen/ChatScreen.cpp:82 | nothing after the first key that reads as -1 is dispatched |
| Input.ByteFFStops | rohbutt/source/Gui/Screen/ChatScreen.cpp:80-82 | a 0xFF byte reads back as -1 and ends the frame as ERR does |
| Screen.NewWin | rohbutt/source/Gui/Screen/ChatScreen.cpp:39-42 | a window keeps the corner and every non-zero size it is given; a size of 0 makes the window end exactly at the screen edge: h - top rows or w - left columns |
| Screen.LayoutTiles | rohbutt/source/Gui/Screen/ChatScreen.cpp:37-45 | on a terminal more than 20 wide and more than 5 high every cell is in exactly one window: tab bar the top two rows, input bar the bottom three, chat pane and user list split at column w - 20 |
| Screen.ZeroSizeOverlaps | rohbutt/source/Gui/Screen/ChatScreen.cpp:40-42 | at exactly 20 columns the chat pane, given width 0, overlaps the user list; at exactly 5 rows, given height 0, it overlaps the input bar |
| Screen.LayoutInside | rohbutt/source/Gui/Screen/ChatScreen.cpp:37-45 | on a terminal at least 20 wide and 5 high no window holds a cell outside it; below 20 columns the user list would start at a negative column |
| Screen.ChatbarShowsBuffer | rohbutt/source/Gui/Screen/ChatScreen.cpp:386-391 | the input bar makes one write per column of row 0 and then one on row 1: the buffer with a `_` cursor, or, when the buffer holds a NUL, only the part before it and no cursor |
| Screen.Shown | rohbutt/source/Gui/Screen/ChatScreen.cpp:188-196 | the number of users shown never exceeds the number of users |
| Screen.UserlistInOrder | rohbutt/source/Gui/Screen/ChatScreen.cpp:179-196 | user k is written on row k, column 1, in colour pair 1 exactly when k < h - 5; the count shown is the smaller of the two |
| Screen.UserlistOnlyUsers | rohbutt/source/Gui/Screen/ChatScreen.cpp:179-196 | every write in column 1 is the name of a user shown, on the row of that user's index |
| Screen.ChatScreen.constructor | rohbutt/source/Gui/Screen/ChatScreen.cpp:8-30 | an empty input buffer and windows matching the recorded size |
| Screen.ChatScreen.InitWindows | rohbutt/source/Gui/Screen/ChatScreen.cpp:37-45 | the four windows are those of the recorded size; nothing else changes |
| Screen.ChatScreen.OnResized | rohbutt/source/Gui/Screen/ChatScreen.cpp:47-53 | the new size is recorded and the windows are laid out for it; the buffer is kept |
| Screen.ChatScreen.MouseClicked | rohbutt/source/Gui/Screen/ChatScreen.cpp:55-76 | the column walk returns the room of `TabBar.Hit`, the first tab whose span holds the click |
| Screen.ChatScreen.Frame | rohbutt/source/Gui/Screen/ChatScreen.cpp:78-116 | the buffer, the commands sent and the keys consumed are those of dispatching the keys up to the first stop; size and windows are unchanged |
| Screen.ChatScreen.DrawTabs | rohbutt/source/Gui/Screen/ChatScreen.cpp:134-172 | the writes are the underline and then each room's tab, the primary one in colour pair 1 |
| Screen.ChatScreen.DrawUnderline | rohbutt/source/Gui/Screen/ChatScreen.cpp:139-140 | `_` in every column of row 1, left to right |
| Screen.ChatScreen.DrawTab | rohbutt/source/Gui/Screen/ChatScreen.cpp:149-168 | one tab's writes, and the cursor ends after the C string of the name |
| Screen.ChatScreen.DrawTitle | rohbutt/source/Gui/Screen/ChatScreen.cpp:157-162 | the do-while writes each character of `c_str()` and then its NUL, advancing after each but the NUL |
| Screen.ChatScreen.DrawChat | rohbutt/source/Gui/Screen/ChatScreen.cpp:333-379 | nothing without a primary room; otherwise the selected messages, placed bottom-up in a pane scrWidth - 20 wide and scrHeight - 5 high |
| Screen.ChatScreen.DrawChatbar | rohbutt/source/Gui/Screen/ChatScreen.cpp:381-394 | `_` in each column of row 0, left to right, then the C string of the buffer with `_` appended on row 1 |
| Screen.ChatScreen.DrawUserlist | rohbutt/source/Gui/Screen/ChatScreen.cpp:174-201 | a vertical bar down column 0 of the height - 5 rows, then the primary room's users until the row reaches height - 5 |
| Screen.ChatScreen.Draw | rohbutt/source/Gui/Screen/ChatScreen.cpp:118-132 | re-lays out only when the size changed, then yields the tab bar, chat pane, input bar and user list writes for the session |

## Left out

- Curses itself is not modelled: `initscr`, colours, `mousemask` and `endwin`
  (`ChatScreen.cpp:8-35`), plus `wclear`, `wrefresh`, `wattron` and
  `nodelay`. Draw routines return their writes as values. How curses clips a
  write at the window's edge is not modelled, and neither is what `%s` and
  `%c` do with bytes outside ASCII.
- The window leak is not modelled: every `InitWindows` allocates new windows
  and never frees the old ones. Windows are values here.
- `getch`, `getmaxyx` and `nc_getmouse` become inputs. `Frame` takes the key
  codes as a sequence, `Draw` takes the terminal size, and a mouse key carries
  the event `nc_getmouse` would report. Time and the 16 ms sleep are out.
- The client library (`RohbotClient`, `Chatroom`) is not part of this model.
  The session is passed in as a value, and the screen's requests are returned
  as commands. What `SetPrimaryChatroomDelta` does is not known here, so
  `SelectDelta` is only recorded.
- `main.cpp` is left out. It is the connect-and-loop driver calling `Frame`
  and `Draw`.
- Input.SignedChar: `char` is taken to be signed, as on x86 compilers. Where
  `char` is unsigned, ERR reads back as 255, the test `ch != -1` never fails,
  and `Frame` never returns. That platform is not modelled.
- Screen.NewWin: the screen size used for a size of 0 is the size the screen
  recorded. curses uses the terminal's, which `Draw` records before it lays
  the windows out. A negative size, which `newwin` refuses with a null
  window, is a window with no cells. Drawing into a null window is not
  modelled.
- CLib.Atoi: the value is not bounded to 32 bits. Out-of-range input is
  undefined behaviour in C, and only its low byte is used.
- Screen.ChatScreen.constructor: the source leaves `m_scrwidth` and
  `m_scrheight` uninitialised. The model starts at 0 × 0, a size no terminal
  reports, so the first `Draw` lays the windows out as the source does in
  practice. The source constructor creates no windows, and its four `WINDOW*`
  fields stay unset until that first `Draw`. The model gives them the layout
  of the 0 × 0 size instead, so that the windows always match the recorded
  size. Nothing is drawn before the first `Draw` re-lays them out.
- Screen.ChatScreen.Frame: it requires that a room is selected whenever an
  Enter is dispatched (the `SelectedAtEnters` predicate). The source
  dereferences the primary room without checking it, which is undefined
  behaviour otherwise. A `_` key does not count as selecting a room, because
  its effect on the client is not known.
- Screen.ChatScreen.DrawUserlist: it requires a primary room, for the same
  unchecked dereference. `Draw` requires one as well.
- Screen.ChatScreen.DrawChat: it requires a chat pane at least 2 wide
  (terminal width at least 22). At width 1 the wrapping loop of
  `GetWrappedLines` never ends. For widths at or below 0 the signed/unsigned
  comparison of `currentLine.length() < width` is not modelled.
- LineWrap.GetWrappedLines: it requires width >= 2, for the same reason.
- HtmlDecode: hexadecimal references (`&#x…;`) are recognised and left
  undecoded, as the source does. Named references other than `&lt;`, `&gt;`,
  `&quot;` and `&amp;` are not decoded by the source either.
- Strings are sequences of bytes held as `char` values from 0 to 255. Locale
  and multibyte handling (`setlocale`) are not modelled.
