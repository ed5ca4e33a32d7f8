/** The tab bar of DrawTabs and the hit test of MouseClicked. A column
    cursor starts at 0; each room adds a " / " separator (3 columns) and
    then its name. Room k's name thus starts at column
    3 (k + 1) + (the lengths of the names before it), and a click at (x, y)
    selects the first room whose span [left, left + length] (both ends
    included) holds x, provided y <= 1. MouseClicked measures names with
    std::string::length(); DrawTabs draws them through c_str() and advances
    by the characters it drew, so the two agree for names without a NUL. */
module TabBar {
  import opened CLib
  import opened Curses
  import opened Optional

  /** The sum of the first k lengths. */
  function SumTo(lens: seq<nat>, k: nat): nat
    requires k <= |lens|
  {
    if k == 0 then 0 else SumTo(lens, k - 1) + lens[k - 1]
  }

  /** The column of the first character of name k, for names of lengths
      `lens`. */
  function TabLeft(lens: seq<nat>, k: nat): int
    requires k < |lens|
  {
    3 * (k + 1) + SumTo(lens, k)
  }

  /** The columns MouseClicked counts as room k's tab. */
  predicate InSpan(lens: seq<nat>, k: nat, x: int, y: int)
    requires k < |lens|
  {
    TabLeft(lens, k) <= x <= TabLeft(lens, k) + lens[k] && y <= 1
  }

  /** The lengths MouseClicked uses: std::string::length(). */
  function Lengths(names: seq<string>): (lens: seq<nat>)
    ensures |lens| == |names|
    ensures forall k :: 0 <= k < |names| ==> lens[k] == |names[k]|
  {
    seq(|names|, k requires 0 <= k < |names| => |names[k]|)
  }

  /** The lengths DrawTabs advances by: the characters of c_str(). */
  function DrawnLengths(names: seq<string>): (lens: seq<nat>)
    ensures |lens| == |names|
    ensures forall k :: 0 <= k < |names| ==> lens[k] == |CStr(names[k])|
  {
    seq(|names|, k requires 0 <= k < |names| => |CStr(names[k])|)
  }

  /** The room a click selects: the first, from room k on, whose span holds
      the click. */
  function FirstHit(lens: seq<nat>, x: int, y: int, k: nat): (r: Option<nat>)
    requires k <= |lens|
    ensures r.Some? ==>
      (k <= r.value < |lens| && InSpan(lens, r.value, x, y)
       && forall j :: k <= j < r.value ==> !InSpan(lens, j, x, y))
    ensures r.None? ==> forall j :: k <= j < |lens| ==> !InSpan(lens, j, x, y)
    decreases |lens| - k
  {
    if k == |lens| then None
    else if InSpan(lens, k, x, y) then Some(k)
    else FirstHit(lens, x, y, k + 1)
  }

  /** The room MouseClicked selects on a click at (x, y), if any. */
  function Hit(names: seq<string>, x: int, y: int): Option<nat> {
    FirstHit(Lengths(names), x, y, 0)
  }

  /** Each tab's span ends 3 columns before the next one starts. */
  lemma {:induction false} TabsAdvance(lens: seq<nat>, j: nat, k: nat)
    requires j < k < |lens|
    ensures TabLeft(lens, j) + lens[j] + 3 <= TabLeft(lens, k)
    decreases k - j
  {
    if j + 1 < k {
      TabsAdvance(lens, j + 1, k);
    }
  }

  /** No column belongs to two spans, so the first hit is the only one. */
  lemma SpansDisjoint(lens: seq<nat>, j: nat, k: nat, x: int, y: int)
    requires j < |lens| && k < |lens|
    requires InSpan(lens, j, x, y) && InSpan(lens, k, x, y)
    ensures j == k
  {
    if j < k {
      TabsAdvance(lens, j, k);
    } else if k < j {
      TabsAdvance(lens, k, j);
    }
  }

  /** A click in room k's span selects room k. */
  lemma HitInSpan(names: seq<string>, k: nat, x: int, y: int)
    requires k < |names| && InSpan(Lengths(names), k, x, y)
    ensures Hit(names, x, y) == Some(k)
  {
    var r := Hit(names, x, y);
    if r.Some? {
      SpansDisjoint(Lengths(names), r.value, k, x, y);
    }
  }

  /** A click below the bar (y > 1) selects nothing. */
  lemma NoHitBelowBar(names: seq<string>, x: int, y: int)
    requires y > 1
    ensures Hit(names, x, y) == None
  {
  }

  /** The '/' of the separator before room k, and the space after it,
      select nothing; the space before it is the right end of room k - 1's
      span. */
  lemma SeparatorClicks(names: seq<string>, k: nat, y: int)
    requires 0 < k < |names| && y <= 1
    ensures Hit(names, TabLeft(Lengths(names), k) - 2, y) == None
    ensures Hit(names, TabLeft(Lengths(names), k) - 1, y) == None
    ensures Hit(names, TabLeft(Lengths(names), k) - 3, y) == Some(k - 1)
  {
    var lens := Lengths(names);
    var left := TabLeft(lens, k);
    assert TabLeft(lens, k - 1) + lens[k - 1] + 3 == left;
    forall x, j | left - 2 <= x <= left - 1 && 0 <= j < |lens|
      ensures !InSpan(lens, j, x, y)
    {
      if j < k - 1 {
        TabsAdvance(lens, j, k - 1);
      } else if j > k {
        TabsAdvance(lens, k, j);
      }
    }
    HitInSpan(names, k - 1, left - 3, y);
  }

  /** The writes of the tab bar: the underline row, then each room's tab
      from column `pos` on. */
  function TabBarWrites(names: seq<string>, primary: Option<nat>, width: int): seq<Write> {
    Underline(width) + TabsFrom(names, primary, 0, 0)
  }

  /** Row 1 is drawn with '_' in every column. */
  function Underline(width: int): (ws: seq<Write>)
    ensures |ws| == if width < 0 then 0 else width
    decreases width
  {
    if width <= 0 then [] else Underline(width - 1) + [Write(1, width - 1, "_", DefaultPair)]
  }

  /** Column x of row 1 holds the x-th '_', for every column of the screen. */
  lemma {:induction false} UnderlineAt(width: int, x: nat)
    requires x < width
    ensures Underline(width)[x] == Write(1, x, "_", DefaultPair)
    decreases width
  {
    if x < width - 1 {
      UnderlineAt(width - 1, x);
    }
  }

  /** The tabs of rooms k, k + 1, ..., the cursor at column `pos`. */
  function TabsFrom(names: seq<string>, primary: Option<nat>, k: nat, pos: int): seq<Write>
    requires k <= |names|
    decreases |names| - k
  {
    if k == |names| then []
    else
      var pair := if primary == Some(k) then HighlightPair else DefaultPair;
      var n := |CStr(names[k])|;
      TabWrites(pos, names[k], pair) + TabsFrom(names, primary, k + 1, pos + 3 + n)
  }

  /** The tab of room k comes first, and the next tab starts after its
      name's C string. */
  lemma TabsFromStep(names: seq<string>, primary: Option<nat>, k: nat, pos: int)
    requires k < |names|
    ensures TabsFrom(names, primary, k, pos)
      == TabWrites(pos, names[k], if primary == Some(k) then HighlightPair else DefaultPair)
        + TabsFrom(names, primary, k + 1, pos + 3 + |CStr(names[k])|)
  {
  }

  /** The same, after the writes `done` already made. */
  lemma TabsFromNext(names: seq<string>, primary: Option<nat>, k: nat, pos: int, done: seq<Write>, tab: seq<Write>, end: int)
    requires k < |names|
    requires tab == TabWrites(pos, names[k], if primary == Some(k) then HighlightPair else DefaultPair)
    requires end == pos + 3 + |CStr(names[k])|
    ensures done + TabsFrom(names, primary, k, pos)
      == (done + tab) + TabsFrom(names, primary, k + 1, end)
  {
    TabsFromStep(names, primary, k, pos);
  }

  /** One tab: " / " at the cursor, then the characters of c_str() one per
      column in the tab's colour pair, then the terminating NUL (which
      shows nothing), then " / " over the column after the name. */
  function TabWrites(pos: int, name: string, pair: nat): seq<Write> {
    var c := CStr(name);
    [Write(0, pos, " / ", DefaultPair)]
      + CharWrites(pos + 3, c + [NUL], pair)
      + [Write(0, pos + 3 + |c|, " / ", DefaultPair)]
  }

  /** What "%c" shows of c: the character itself, or nothing for NUL
      (the formatted text is read back as a C string). */
  function Glyph(c: char): (g: string)
    ensures g == CStr([c])
  {
    if c == NUL then [] else [c]
  }

  /** "%c" with each character of `cs` from column `left` on. */
  function CharWrites(left: int, cs: string, pair: nat): (ws: seq<Write>)
    ensures |ws| == |cs|
  {
    if cs == [] then []
    else CharWrites(left, cs[..|cs| - 1], pair) + [Write(0, left + |cs| - 1, Glyph(cs[|cs| - 1]), pair)]
  }

  /** Write j of CharWrites is character j, at column left + j. */
  lemma {:induction false} CharWritesAt(left: int, cs: string, pair: nat, j: nat)
    requires j < |cs|
    ensures CharWrites(left, cs, pair)[j] == Write(0, left + j, Glyph(cs[j]), pair)
  {
    if j < |cs| - 1 {
      CharWritesAt(left, cs[..|cs| - 1], pair, j);
    }
  }

  /** Sums of lengths that agree term by term agree. */
  lemma {:induction false} SumToAgree(a: seq<nat>, b: seq<nat>, k: nat)
    requires k <= |a| && k <= |b|
    requires forall m :: 0 <= m < k ==> a[m] == b[m]
    ensures SumTo(a, k) == SumTo(b, k)
  {
    if k > 0 {
      SumToAgree(a, b, k - 1);
    }
  }

  /** Whether w is among the writes of the tabs of rooms k, k + 1, ...,
      the cursor at column `pos`. */
  predicate InTabs(w: Write, names: seq<string>, primary: Option<nat>, k: nat, pos: int)
    requires k <= |names|
    decreases |names| - k
  {
    && k < |names|
    && var pair := if primary == Some(k) then HighlightPair else DefaultPair;
      (w in TabWrites(pos, names[k], pair) || InTabs(w, names, primary, k + 1, pos + 3 + |CStr(names[k])|))
  }

  /** InTabs is membership in TabsFrom. */
  lemma {:induction false} InTabsWritten(w: Write, names: seq<string>, primary: Option<nat>, k: nat, pos: int)
    requires k <= |names| && InTabs(w, names, primary, k, pos)
    ensures w in TabsFrom(names, primary, k, pos)
    decreases |names| - k
  {
    var pair := if primary == Some(k) then HighlightPair else DefaultPair;
    var next := pos + 3 + |CStr(names[k])|;
    TabsFromStep(names, primary, k, pos);
    if w in TabWrites(pos, names[k], pair) {
      InFirst(w, TabWrites(pos, names[k], pair), TabsFrom(names, primary, k + 1, next));
    } else {
      InTabsWritten(w, names, primary, k + 1, next);
      InSecond(w, TabWrites(pos, names[k], pair), TabsFrom(names, primary, k + 1, next));
    }
  }

  /** A write of the tabs from room k on, the first drawn from column
      TabLeft(DrawnLengths(names), k) - 3, is a write of the tabs from room
      i <= k on. */
  lemma {:induction false} TabDrawnAt(names: seq<string>, primary: Option<nat>, i: nat, pos: int, k: nat, w: Write)
    requires i <= k < |names|
    requires pos == 3 * i + SumTo(DrawnLengths(names), i)
    requires InTabs(w, names, primary, k, TabLeft(DrawnLengths(names), k) - 3)
    ensures InTabs(w, names, primary, i, pos)
    decreases k - i
  {
    if i < k {
      NextTabStart(names, i, pos);
      TabDrawnAt(names, primary, i + 1, pos + 3 + |CStr(names[i])|, k, w);
    } else {
      assert pos == TabLeft(DrawnLengths(names), k) - 3;
    }
  }

  /** The cursor after room i's tab is where room i + 1's tab starts. */
  lemma NextTabStart(names: seq<string>, i: nat, pos: int)
    requires i < |names|
    requires pos == 3 * i + SumTo(DrawnLengths(names), i)
    ensures pos + 3 + |CStr(names[i])| == 3 * (i + 1) + SumTo(DrawnLengths(names), i + 1)
  {
    assert DrawnLengths(names)[i] == |CStr(names[i])|;
  }

  lemma InFirst(w: Write, a: seq<Write>, b: seq<Write>)
    requires w in a
    ensures w in a + b
  {
  }

  lemma InSecond(w: Write, a: seq<Write>, b: seq<Write>)
    requires w in b
    ensures w in a + b
  {
  }

  /** Without NULs, DrawTabs and MouseClicked place room k at the same
      column. */
  lemma DrawnAsMeasured(names: seq<string>, k: nat)
    requires k < |names|
    requires forall m :: 0 <= m < |names| ==> NUL !in names[m]
    ensures TabLeft(DrawnLengths(names), k) == TabLeft(Lengths(names), k)
  {
    var lens := Lengths(names);
    var drawn := DrawnLengths(names);
    forall m | 0 <= m < k
      ensures drawn[m] == lens[m]
    {
      CStrNoNul(names[m]);
    }
    SumToAgree(drawn, lens, k);
  }

  /** Character j of a NUL-free name is among its tab's writes, j columns
      after the separator. */
  lemma CharInTab(pos: int, name: string, pair: nat, j: nat)
    requires NUL !in name && j < |name|
    ensures Write(0, pos + 3 + j, [name[j]], pair) in TabWrites(pos, name, pair)
  {
    CStrNoNul(name);
    var cw := CharWrites(pos + 3, name + [NUL], pair);
    CharWritesAt(pos + 3, name + [NUL], pair, j);
    assert cw[j] == Write(0, pos + 3 + j, [name[j]], pair);
    assert TabWrites(pos, name, pair)[1 + j] == cw[j];
  }

  /** The tabs are part of the whole bar. */
  lemma WriteInBar(names: seq<string>, primary: Option<nat>, width: int, w: Write)
    requires w in TabsFrom(names, primary, 0, 0)
    ensures w in TabBarWrites(names, primary, width)
  {
  }

  /** Character j of a NUL-free name is drawn at the column a click on it
      selects that room by, in the highlight pair exactly when the room is
      the primary one. */
  lemma ClickOnDrawnName(names: seq<string>, primary: Option<nat>, width: int, k: nat, j: nat)
    requires k < |names| && j < |names[k]|
    requires forall m :: 0 <= m < |names| ==> NUL !in names[m]
    ensures var col := TabLeft(Lengths(names), k) + j;
      var pair := if primary == Some(k) then HighlightPair else DefaultPair;
      && Write(0, col, [names[k][j]], pair) in TabBarWrites(names, primary, width)
      && Hit(names, col, 0) == Some(k)
  {
    var pair := if primary == Some(k) then HighlightPair else DefaultPair;
    var pos := TabLeft(DrawnLengths(names), k) - 3;
    CharInTab(pos, names[k], pair, j);
    var w := Write(0, pos + 3 + j, [names[k][j]], pair);
    assert InTabs(w, names, primary, k, pos);
    TabDrawnAt(names, primary, 0, 0, k, w);
    InTabsWritten(w, names, primary, 0, 0);
    WriteInBar(names, primary, width, w);
    DrawnAsMeasured(names, k);
    HitInSpan(names, k, TabLeft(Lengths(names), k) + j, 0);
  }
}
