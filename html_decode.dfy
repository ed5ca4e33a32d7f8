/** HTMLDecode of ChatScreen.cpp: the in-place decoding of the character
    references &lt; &gt; &quot; &amp; and &#<decimal>; in a message.

    The source edits the string while it scans it. After &lt;, &gt; and
    &quot; it moves the index back by three, so the scan resumes two
    characters before the replacement; when the replacement is at index 0
    or 1, the index turns negative, the unsigned loop test fails and the
    scan ends there. `Scan` is that state machine, `HTMLDecode` the loop;
    the lemmas below say what the result is in terms of the references the
    text is made of. */
module HtmlDecode {
  import opened CLib

  /** `s.substr(i, |pat|) == pat`: the text at index i starts with pat. */
  predicate At(s: string, i: nat, pat: string) {
    i + |pat| <= |s| && s[i..i + |pat|] == pat
  }

  /** The loop of HTMLDecode as a function: `s` is the string being edited,
      `i` the index the scan looks at next, and the result is the string
      the loop ends with. */
  function Scan(s: string, i: nat): string
    decreases |s|, |s| - i, 1
  {
    if i >= |s| then s
    else if s[i] != '&' then Scan(s, i + 1)
    else ScanRef(s, i)
  }

  /** One pass of the loop at an '&'. */
  function ScanRef(s: string, i: nat): string
    requires i < |s| && s[i] == '&'
    decreases |s|, |s| - i, 0
  {
    if At(s, i, "&lt;") then
      var t := s[..i] + "<" + s[i + 4..];
      if i < 2 then t else Scan(t, i - 2)
    else if At(s, i, "&gt;") then
      var t := s[..i] + ">" + s[i + 4..];
      if i < 2 then t else Scan(t, i - 2)
    else if At(s, i, "&quot;") then
      var t := s[..i] + "\"" + s[i + 6..];
      if i < 2 then t else Scan(t, i - 2)
    else if At(s, i, "&amp;") then Scan(s[..i] + "&" + s[i + 5..], i + 1)
    else if i + 1 < |s| && s[i + 1] == '#' then
      var end := Find(s, ';', i);
      if end == -1 then Scan(s, i + 1)
      else
        var num := s[i + 2..end];
        if |num| > 0 && num[0] == 'x' then Scan(s, i + 1)
        else Scan(s[..i] + [NarrowToChar(Atoi(num))] + s[end + 1..], i + 1)
    else Scan(s, i + 1)
  }

  /** `char ch = atoi(num.c_str())`: the byte a decimal reference stands
      for, which is the low byte of atoi of the whole payload. */
  function ReferenceByte(num: string): (ch: char)
    ensures ch == NarrowToChar(Atoi(num))
  {
    AtoiCStr(num);
    NarrowToChar(Atoi(CStr(num)))
  }

  /** HTMLDecode (ChatScreen.cpp:274-331), step by step on a copy of the input. */
  method HTMLDecode(input: string) returns (decoded: string)
    ensures decoded == Scan(input, 0)
  {
    var s := input;
    var i: int := 0;
    // `i < in.length()` compares the int index as an unsigned number: a
    // negative index reads as a huge one and ends the loop.
    while 0 <= i < |s|
      invariant -2 <= i <= |s|
      invariant (if i < 0 then s else Scan(s, i)) == Scan(input, 0)
      decreases |s|, |s| - i
    {
      if s[i] == '&' {
        if At(s, i, "&lt;") {
          s := s[..i] + "<" + s[i + 4..];
          i := i - 3;
        } else if At(s, i, "&gt;") {
          s := s[..i] + ">" + s[i + 4..];
          i := i - 3;
        } else if At(s, i, "&quot;") {
          s := s[..i] + "\"" + s[i + 6..];
          i := i - 3;
        } else if At(s, i, "&amp;") {
          s := s[..i] + "&" + s[i + 5..];
        } else if i + 1 < |s| && s[i + 1] == '#' {
          var end := Find(s, ';', i);
          if end != -1 {
            var num := s[i + 2..end];
            // A payload starting with 'x' is a hexadecimal reference, which
            // is recognised and left as it is. An empty payload reads
            // num[0] as the terminating NUL.
            if |num| == 0 || num[0] != 'x' {
              var ch := ReferenceByte(num);
              s := s[..i] + [ch] + s[end + 1..];
            }
          }
        }
      }
      i := i + 1;
    }
    decoded := s;
  }

  // ---------------------------------------------------------------------
  // The text as a sequence of pieces: plain characters and references.

  datatype Entity = Lt | Gt | Quot | Amp

  function EntityText(e: Entity): string {
    match e
    case Lt => "&lt;"
    case Gt => "&gt;"
    case Quot => "&quot;"
    case Amp => "&amp;"
  }

  function EntityChar(e: Entity): char {
    match e
    case Lt => '<'
    case Gt => '>'
    case Quot => '"'
    case Amp => '&'
  }

  /** One piece of a message text: a character that is not '&', a named
      reference, or a decimal reference "&#" + payload + ";". */
  datatype Piece = Plain(c: char) | Named(e: Entity) | Numeric(payload: string)

  predicate WellFormed(p: Piece) {
    match p
    case Plain(c) => c != '&'
    case Named(_) => true
    case Numeric(payload) => ';' !in payload && (payload == [] || payload[0] != 'x')
  }

  /** The text of a piece. */
  function Source(p: Piece): string {
    match p
    case Plain(c) => [c]
    case Named(e) => EntityText(e)
    case Numeric(payload) => "&#" + payload + ";"
  }

  /** The character a piece stands for. */
  function Meaning(p: Piece): char {
    match p
    case Plain(c) => c
    case Named(e) => EntityChar(e)
    case Numeric(payload) => NarrowToChar(Atoi(payload))
  }

  /** A reference after which the source moves the scan index back. */
  predicate StepsBack(p: Piece) {
    p.Named? && p.e != Amp
  }

  function Encode(ps: seq<Piece>): string {
    if ps == [] then [] else Source(ps[0]) + Encode(ps[1..])
  }

  /** The intended decoding: every piece becomes the character it stands for. */
  function Render(ps: seq<Piece>): (r: string)
    ensures |r| == |ps|
  {
    if ps == [] then [] else [Meaning(ps[0])] + Render(ps[1..])
  }

  /** Character k of the intended decoding is what piece k stands for. */
  lemma {:induction false} RenderAt(ps: seq<Piece>, k: nat)
    requires k < |ps|
    ensures Render(ps)[k] == Meaning(ps[k])
  {
    if k > 0 {
      assert ps[1..][k - 1] == ps[k];
      RenderAt(ps[1..], k - 1);
    }
  }

  lemma {:induction false} RenderAppend(a: seq<Piece>, b: seq<Piece>)
    ensures Render(a + b) == Render(a) + Render(b)
  {
    if a != [] {
      assert (a + b)[0] == a[0];
      assert (a + b)[1..] == a[1..] + b;
      RenderAppend(a[1..], b);
      assert [Meaning(a[0])] + (Render(a[1..]) + Render(b))
        == ([Meaning(a[0])] + Render(a[1..])) + Render(b);
    } else {
      assert a + b == b;
    }
  }

  lemma RenderOne(x: Piece)
    ensures Render([x]) == [Meaning(x)]
  {
    assert [x][1..] == [];
  }

  /** No &lt;, &gt; or &quot; right after an '&' and a '#' in the decoded
      text: the step back would read those two as the start of a decimal
      reference. */
  predicate NoHashBeforeStepBack(ps: seq<Piece>) {
    forall k :: 2 <= k < |ps| && StepsBack(ps[k]) ==>
      !(Meaning(ps[k - 2]) == '&' && Meaning(ps[k - 1]) == '#')
  }

  /** The string the loop holds when it reaches piece i. */
  function State(ps: seq<Piece>, i: nat): string
    requires i <= |ps|
  {
    Render(ps[..i]) + Encode(ps[i..])
  }

  lemma EncodeAt(ps: seq<Piece>, i: nat)
    requires i < |ps|
    ensures Encode(ps[i..]) == Source(ps[i]) + Encode(ps[i + 1..])
  {
    assert ps[i..][1..] == ps[i + 1..];
  }

  lemma {:induction false} EncodeAppend(a: seq<Piece>, b: seq<Piece>)
    ensures Encode(a + b) == Encode(a) + Encode(b)
  {
    if a != [] {
      assert (a + b)[0] == a[0];
      assert (a + b)[1..] == a[1..] + b;
      EncodeAppend(a[1..], b);
      calc {
        Encode(a + b);
        Source(a[0]) + Encode(a[1..] + b);
        Source(a[0]) + (Encode(a[1..]) + Encode(b));
        (Source(a[0]) + Encode(a[1..])) + Encode(b);
      }
    } else {
      assert a + b == b;
    }
  }

  lemma RenderSnoc(ps: seq<Piece>, i: nat)
    requires i < |ps|
    ensures Render(ps[..i + 1]) == Render(ps[..i]) + [Meaning(ps[i])]
  {
    assert ps[..i + 1] == ps[..i] + [ps[i]];
    RenderAppend(ps[..i], [ps[i]]);
    RenderOne(ps[i]);
  }

  lemma StateAt(ps: seq<Piece>, i: nat)
    requires i < |ps|
    ensures var s := State(ps, i); var src := Source(ps[i]);
      && i + |src| <= |s|
      && s[..i] == Render(ps[..i])
      && s[i..i + |src|] == src
      && s[i + |src|..] == Encode(ps[i + 1..])
      && State(ps, i + 1) == s[..i] + [Meaning(ps[i])] + s[i + |src|..]
  {
    var r, src, e := Render(ps[..i]), Source(ps[i]), Encode(ps[i + 1..]);
    EncodeAt(ps, i);
    RenderSnoc(ps, i);
    Splice3(r, src, e, Meaning(ps[i]));
    assert State(ps, i) == r + (src + e);
    assert State(ps, i + 1) == (r + [Meaning(ps[i])]) + e;
  }

  /** The three parts of r + (src + e), and src replaced by m. */
  lemma Splice3(r: string, src: string, e: string, m: char)
    ensures var s := r + (src + e);
      && s[..|r|] == r && s[|r|..|r| + |src|] == src && s[|r| + |src|..] == e
      && (r + [m]) + e == s[..|r|] + [m] + s[|r| + |src|..]
  {
    var s := r + (src + e);
    assert s[..|r|] == r;
    assert s[|r|..|r| + |src|] == src;
    assert s[|r| + |src|..] == e;
  }

  /** Scanning only characters other than '&' changes nothing. */
  lemma {:induction false} ScanPlainRun(s: string, i: nat, j: nat)
    requires i <= j <= |s|
    requires forall k :: i <= k < j ==> s[k] != '&'
    ensures Scan(s, i) == Scan(s, j)
    decreases j - i
  {
    if i < j {
      ScanPlainRun(s, i + 1, j);
    }
  }

  lemma ScanRestPlain(s: string, i: nat)
    requires i <= |s|
    requires forall k :: i <= k < |s| ==> s[k] != '&'
    ensures Scan(s, i) == s
  {
    ScanPlainRun(s, i, |s|);
  }

  /** After a step back from a replacement at i, the scan passes the two
      characters before it again without changing anything, unless they
      are "&#". */
  lemma SkipBack(s: string, i: nat)
    requires 2 <= i < |s|
    requires s[i] == '<' || s[i] == '>' || s[i] == '"'
    requires !(s[i - 2] == '&' && s[i - 1] == '#')
    ensures Scan(s, i - 2) == Scan(s, i + 1)
  {
    NotAt(s, i - 2, "&lt;", 2);
    NotAt(s, i - 2, "&gt;", 2);
    NotAt(s, i - 2, "&quot;", 2);
    NotAt(s, i - 2, "&amp;", 2);
    assert Scan(s, i - 2) == Scan(s, i - 1);
    NotAt(s, i - 1, "&lt;", 1);
    NotAt(s, i - 1, "&gt;", 1);
    NotAt(s, i - 1, "&quot;", 1);
    NotAt(s, i - 1, "&amp;", 1);
    assert Scan(s, i - 1) == Scan(s, i);
  }

  /** A pattern does not match where one of its characters differs. */
  lemma NotAt(s: string, i: nat, pat: string, k: nat)
    requires k < |pat| && i + k < |s| && s[i + k] != pat[k]
    ensures !At(s, i, pat)
  {
    if i + |pat| <= |s| {
      assert s[i..i + |pat|][k] == s[i + k];
    }
  }

  /** The characters of a matched pattern. */
  lemma AtChars(s: string, i: nat, pat: string)
    requires At(s, i, pat)
    ensures forall k :: 0 <= k < |pat| ==> s[i + k] == pat[k]
  {
    forall k | 0 <= k < |pat| ensures s[i + k] == pat[k] {
      assert s[i + k] == s[i..i + |pat|][k];
    }
  }

  /** One character of a matched pattern. */
  lemma CharAt(s: string, i: nat, pat: string, k: nat)
    requires At(s, i, pat) && k < |pat|
    ensures s[i + k] == pat[k]
  {
    assert s[i + k] == s[i..i + |pat|][k];
  }

  /** One named reference at index i: replaced by its character; the scan
      goes on after it (&amp;), two characters before it, or ends when that
      is before the start of the string. */
  lemma ScanNamedAt(s: string, i: nat, e: Entity)
    requires At(s, i, EntityText(e))
    ensures var t := s[..i] + [EntityChar(e)] + s[i + |EntityText(e)|..];
      Scan(s, i) == if e == Amp then Scan(t, i + 1) else if i < 2 then t else Scan(t, i - 2)
  {
    CharAt(s, i, EntityText(e), 0);
    CharAt(s, i, EntityText(e), 1);
    match e
    case Lt =>
    case Gt =>
      NotAt(s, i, "&lt;", 1);
    case Quot =>
      NotAt(s, i, "&lt;", 1);
      NotAt(s, i, "&gt;", 1);
    case Amp =>
      NotAt(s, i, "&lt;", 1);
      NotAt(s, i, "&gt;", 1);
      NotAt(s, i, "&quot;", 1);
  }

  /** The ';' of a decimal reference at index i is the first one from i on,
      and the payload lies between "&#" and it. */
  lemma NumericEnd(s: string, i: nat, payload: string)
    requires At(s, i, "&#" + payload + ";")
    requires ';' !in payload
    ensures s[i] == '&' && s[i + 1] == '#'
    ensures Find(s, ';', i) == i + 2 + |payload|
    ensures s[i + 2..i + 2 + |payload|] == payload
  {
    var src := "&#" + payload + ";";
    AtChars(s, i, src);
    var end := i + 2 + |payload|;
    assert s[end] == src[|src| - 1];
    forall j | i <= j < end ensures s[j] != ';' {
      assert s[j] == src[j - i];
      if j >= i + 2 { assert src[j - i] == payload[j - i - 2]; }
    }
    FindFirst(s, ';', i, end);
    assert s[i + 2..end] == payload by {
      forall k | 0 <= k < |payload| ensures s[i + 2..end][k] == payload[k] {
        assert s[i + 2 + k] == src[2 + k];
      }
    }
  }

  /** One decimal reference at index i: replaced by the low byte of atoi of
      its payload; the scan goes on after it. */
  lemma ScanNumericAt(s: string, i: nat, payload: string)
    requires At(s, i, "&#" + payload + ";")
    requires ';' !in payload && (payload == [] || payload[0] != 'x')
    ensures Scan(s, i) == Scan(s[..i] + [NarrowToChar(Atoi(payload))] + s[i + |payload| + 3..], i + 1)
  {
    NumericEnd(s, i, payload);
    NotAt(s, i, "&lt;", 1);
    NotAt(s, i, "&gt;", 1);
    NotAt(s, i, "&quot;", 1);
    NotAt(s, i, "&amp;", 1);
  }

  lemma ScanPlainAt(s: string, i: nat)
    requires i < |s| && s[i] != '&'
    ensures Scan(s, i) == Scan(s, i + 1)
  {
  }

  lemma ScanStepPlain(ps: seq<Piece>, i: nat)
    requires i < |ps| && ps[i].Plain? && WellFormed(ps[i])
    ensures Scan(State(ps, i), i) == Scan(State(ps, i + 1), i + 1)
  {
    PlainState(ps, i);
    ScanPlainAt(State(ps, i), i);
  }

  /** A plain character is its own decoding: the string is the same before
      and after it. */
  lemma PlainState(ps: seq<Piece>, i: nat)
    requires i < |ps| && ps[i].Plain? && WellFormed(ps[i])
    ensures i < |State(ps, i)| && State(ps, i)[i] == ps[i].c
    ensures State(ps, i + 1) == State(ps, i)
  {
    EncodeAt(ps, i);
    RenderSnoc(ps, i);
    Splice(Render(ps[..i]), ps[i].c, Encode(ps[i + 1..]));
  }

  lemma Splice(r: string, c: char, e: string)
    ensures (r + [c]) + e == r + ([c] + e)
    ensures |r| < |r + ([c] + e)| && (r + ([c] + e))[|r|] == c
  {
  }

  lemma ScanStepNamed(ps: seq<Piece>, i: nat)
    requires i < |ps| && ps[i].Named?
    requires StepsBack(ps[i]) && i >= 2 ==> !(Meaning(ps[i - 2]) == '&' && Meaning(ps[i - 1]) == '#')
    ensures StepsBack(ps[i]) && i < 2 ==> Scan(State(ps, i), i) == State(ps, i + 1)
    ensures !(StepsBack(ps[i]) && i < 2) ==> Scan(State(ps, i), i) == Scan(State(ps, i + 1), i + 1)
  {
    var s := State(ps, i);
    var e := ps[i].e;
    StateAt(ps, i);
    assert Source(ps[i]) == EntityText(e) && Meaning(ps[i]) == EntityChar(e);
    ScanNamedAt(s, i, e);
    assert State(ps, i + 1) == s[..i] + [EntityChar(e)] + s[i + |EntityText(e)|..];
    if StepsBack(ps[i]) && i >= 2 {
      StepBackPasses(ps, i);
    }
  }

  /** After the step back from piece i, the scan passes the decoded
      characters of pieces i - 2 and i - 1 again. */
  lemma StepBackPasses(ps: seq<Piece>, i: nat)
    requires 2 <= i < |ps| && StepsBack(ps[i])
    requires !(Meaning(ps[i - 2]) == '&' && Meaning(ps[i - 1]) == '#')
    ensures Scan(State(ps, i + 1), i - 2) == Scan(State(ps, i + 1), i + 1)
  {
    var r := Render(ps[..i + 1]);
    RenderAt(ps[..i + 1], i - 2);
    RenderAt(ps[..i + 1], i - 1);
    RenderAt(ps[..i + 1], i);
    var next := State(ps, i + 1);
    assert next[i - 2] == r[i - 2] && next[i - 1] == r[i - 1] && next[i] == r[i];
    SkipBack(next, i);
  }

  lemma ScanStepNumeric(ps: seq<Piece>, i: nat)
    requires i < |ps| && ps[i].Numeric? && WellFormed(ps[i])
    ensures Scan(State(ps, i), i) == Scan(State(ps, i + 1), i + 1)
  {
    var s := State(ps, i);
    var payload := ps[i].payload;
    var src := Source(ps[i]);
    StateAt(ps, i);
    assert src == "&#" + payload + ";" && |src| == |payload| + 3;
    assert At(s, i, src);
    ScanNumericAt(s, i, payload);
    assert State(ps, i + 1) == s[..i] + [NarrowToChar(Atoi(payload))] + s[i + |payload| + 3..];
  }

  /** One piece of the scan: the loop turns piece i into its character and
      moves on to piece i + 1, or ends there after a step back from index
      0 or 1. */
  lemma ScanStep(ps: seq<Piece>, i: nat)
    requires i < |ps| && WellFormed(ps[i])
    requires StepsBack(ps[i]) && i >= 2 ==> !(Meaning(ps[i - 2]) == '&' && Meaning(ps[i - 1]) == '#')
    ensures StepsBack(ps[i]) && i < 2 ==> Scan(State(ps, i), i) == State(ps, i + 1)
    ensures !(StepsBack(ps[i]) && i < 2) ==> Scan(State(ps, i), i) == Scan(State(ps, i + 1), i + 1)
  {
    if ps[i].Plain? {
      ScanStepPlain(ps, i);
    } else if ps[i].Named? {
      ScanStepNamed(ps, i);
    } else {
      ScanStepNumeric(ps, i);
    }
  }

  lemma {:induction false} ScanFrom(ps: seq<Piece>, i: nat)
    requires i <= |ps|
    requires forall k :: i <= k < |ps| ==> WellFormed(ps[k])
    requires forall k :: i <= k < |ps| && k < 2 ==> !StepsBack(ps[k])
    requires NoHashBeforeStepBack(ps)
    ensures Scan(State(ps, i), i) == Render(ps)
    decreases |ps| - i
  {
    if i == |ps| {
      assert ps[..i] == ps;
      assert State(ps, i) == Render(ps);
    } else {
      ScanStep(ps, i);
      ScanFrom(ps, i + 1);
    }
  }

  /** The decoding of a text made of well-formed pieces is the intended one,
      every piece becoming its character, provided no &lt;, &gt; or &quot;
      is among the first two pieces and none follows "&#" in the decoded
      text. */
  lemma DecodePieces(ps: seq<Piece>)
    requires forall k :: 0 <= k < |ps| ==> WellFormed(ps[k])
    requires forall k :: 0 <= k < |ps| && k < 2 ==> !StepsBack(ps[k])
    requires NoHashBeforeStepBack(ps)
    ensures Scan(Encode(ps), 0) == Render(ps)
  {
    StateStart(ps);
    ScanFrom(ps, 0);
  }

  /** When the first &lt;, &gt; or &quot; is piece 0 or 1, the scan ends
      right after replacing it: nothing after it is decoded. */
  lemma DecodeEndsEarly(ps: seq<Piece>, j: nat)
    requires j < 2 && j < |ps| && StepsBack(ps[j])
    requires forall k :: 0 <= k <= j ==> WellFormed(ps[k])
    requires forall k :: 0 <= k < j ==> !StepsBack(ps[k])
    ensures Scan(Encode(ps), 0) == Render(ps[..j + 1]) + Encode(ps[j + 1..])
  {
    StateStart(ps);
    if j == 1 {
      assert WellFormed(ps[0]) && !StepsBack(ps[0]);
      ScanStep(ps, 0);
    }
    ScanStep(ps, j);
    assert Scan(State(ps, j), j) == State(ps, j + 1);
  }

  /** Before the scan, the string is the encoded text. */
  lemma StateStart(ps: seq<Piece>)
    ensures State(ps, 0) == Encode(ps)
  {
    assert ps[0..] == ps;
    assert ps[..0] == [];
  }

  // ---------------------------------------------------------------------
  // References in otherwise plain text.

  function Plains(t: string): (ps: seq<Piece>)
    ensures |ps| == |t|
    ensures forall k :: 0 <= k < |t| ==> ps[k] == Plain(t[k])
  {
    seq(|t|, k requires 0 <= k < |t| => Plain(t[k]))
  }

  lemma {:induction false} EncodePlains(t: string)
    ensures Encode(Plains(t)) == t
  {
    if t != [] {
      assert Plains(t)[1..] == Plains(t[1..]);
      EncodePlains(t[1..]);
    }
  }

  lemma {:induction false} RenderPlains(t: string)
    ensures Render(Plains(t)) == t
  {
    if t != [] {
      assert Plains(t)[1..] == Plains(t[1..]);
      RenderPlains(t[1..]);
    }
  }

  /** A text without '&' comes back unchanged. */
  lemma NoAmpersandUnchanged(s: string)
    requires '&' !in s
    ensures Scan(s, 0) == s
  {
    ScanRestPlain(s, 0);
  }

  /** A piece between two runs of plain characters. */
  lemma InContext(p: string, x: Piece, t: string)
    ensures Encode(Plains(p) + [x] + Plains(t)) == p + Source(x) + t
    ensures Render(Plains(p) + [x] + Plains(t)) == p + [Meaning(x)] + t
  {
    var ps := Plains(p) + [x] + Plains(t);
    EncodePlains(p);
    EncodePlains(t);
    assert Encode([x]) == Source(x) by {
      assert [x][1..] == [];
    }
    EncodeAppend(Plains(p), [x]);
    EncodeAppend(Plains(p) + [x], Plains(t));
    RenderPlains(p);
    RenderPlains(t);
    RenderOne(x);
    RenderAppend(Plains(p), [x]);
    RenderAppend(Plains(p) + [x], Plains(t));
  }

  /** Each named reference in plain text becomes its character; what
      follows it comes back as it was. */
  lemma NamedReferenceDecoded(p: string, e: Entity, t: string)
    requires '&' !in p && '&' !in t
    ensures Scan(p + EntityText(e) + t, 0) == p + [EntityChar(e)] + t
  {
    var ps := Plains(p) + [Named(e)] + Plains(t);
    InContext(p, Named(e), t);
    PlainsAround(p, Named(e), t);
    if StepsBack(Named(e)) && |p| < 2 {
      NamedEndsEarly(p, e, t);
      EncodePlains(t);
    } else {
      assert NoHashBeforeStepBack(ps);
      DecodePieces(ps);
    }
  }

  /** The pieces of p + x + t: plain ones around x at index |p|. */
  lemma PlainsAround(p: string, x: Piece, t: string)
    requires '&' !in p && '&' !in t
    ensures var ps := Plains(p) + [x] + Plains(t);
      && |ps| == |p| + 1 + |t| && ps[|p|] == x
      && ps[..|p| + 1] == Plains(p) + [x] && ps[|p| + 1..] == Plains(t)
      && forall k :: 0 <= k < |ps| && k != |p| ==> ps[k].Plain? && WellFormed(ps[k])
  {
    var ps := Plains(p) + [x] + Plains(t);
    assert ps[..|p| + 1] == Plains(p) + [x];
    assert ps[|p| + 1..] == Plains(t);
  }

  /** A &lt;, &gt; or &quot; at index 0 or 1 ends the scan after it. */
  lemma NamedEndsEarly(p: string, e: Entity, t: string)
    requires '&' !in p && '&' !in t && |p| < 2 && e != Amp
    ensures Scan(p + EntityText(e) + t, 0) == p + [EntityChar(e)] + Encode(Plains(t))
  {
    var ps := Plains(p) + [Named(e)] + Plains(t);
    InContext(p, Named(e), t);
    PlainsAround(p, Named(e), t);
    DecodeEndsEarly(ps, |p|);
    RenderPlains(p);
    RenderOne(Named(e));
    RenderAppend(Plains(p), [Named(e)]);
  }

  /** A decimal reference in plain text, whose payload has no ';' and does
      not start with 'x', becomes the low byte of atoi of its payload. */
  lemma NumericReferenceDecoded(p: string, payload: string, t: string)
    requires '&' !in p && '&' !in t
    requires ';' !in payload && (payload == [] || payload[0] != 'x')
    ensures Scan(p + "&#" + payload + ";" + t, 0) == p + [NarrowToChar(Atoi(payload))] + t
  {
    var ps := Plains(p) + [Numeric(payload)] + Plains(t);
    InContext(p, Numeric(payload), t);
    assert p + Source(Numeric(payload)) + t == p + "&#" + payload + ";" + t;
    assert forall k :: 0 <= k < |ps| ==> WellFormed(ps[k]) && !StepsBack(ps[k]);
    DecodePieces(ps);
  }

  /** &#<n>; with n written in decimal becomes the byte n mod 256. */
  lemma DecimalReferenceDecoded(p: string, n: nat, t: string)
    requires '&' !in p && '&' !in t
    ensures Scan(p + "&#" + Numeral(n) + ";" + t, 0) == p + [NarrowToChar(n)] + t
  {
    var ds := Numeral(n);
    assert ';' !in ds && ds[0] != 'x' by {
      assert forall j :: 0 <= j < |ds| ==> IsDigit(ds[j]);
    }
    AtoiNumeral(n, []);
    assert ds + [] == ds;
    NumericReferenceDecoded(p, ds, t);
  }

  /** A hexadecimal reference, or an "&#" with no ';' after it, is left as
      it is. This is stated only between runs of text without '&'; the
      pieces of DecodePieces have no kind for it, so texts that mix it with
      other references are not covered. */
  lemma HashReferenceLeftAlone(p: string, rest: string)
    requires '&' !in p && '&' !in rest
    requires ';' !in rest || (rest != [] && rest[0] == 'x')
    ensures Scan(p + "&#" + rest, 0) == p + "&#" + rest
  {
    var s := p + "&#" + rest;
    var i := |p|;
    ScanPlainRun(s, 0, i);
    assert s[i] == '&' && s[i + 1] == '#';
    NotAt(s, i, "&lt;", 1);
    NotAt(s, i, "&gt;", 1);
    NotAt(s, i, "&quot;", 1);
    NotAt(s, i, "&amp;", 1);
    var end := Find(s, ';', i);
    if end != -1 {
      assert end >= i + 2;
      assert s[end] == rest[end - i - 2];
      assert rest[0] == 'x';
      assert s[i + 2] == 'x';
      assert s[i + 2..end][0] == 'x';
    }
    assert Scan(s, i) == Scan(s, i + 1);
    ScanRestPlain(s, i + 1);
  }

  /** Whether the text after `&` at |p| of p + "&" + t starts with a
      pattern is whether t starts with the rest of it. */
  lemma AtAfterAmpersand(p: string, t: string, q: string)
    ensures At(p + "&" + t, |p|, "&" + q) == At(t, 0, q)
  {
    var s := p + "&" + t;
    var i := |p|;
    if i + 1 + |q| <= |s| {
      assert s[i..i + 1 + |q|] == "&" + t[..|q|];
      if t[..|q|] == q {
      } else {
        assert ("&" + t[..|q|])[1..] == t[..|q|];
        assert ("&" + q)[1..] == q;
      }
    }
  }

  /** An '&' that starts no reference stays as it is ("AT&T", "a & b"):
      after the '&' comes neither '#' nor the rest of a known name. As for
      HashReferenceLeftAlone, this is stated only between runs of text
      without '&', not in texts that mix it with other references. */
  lemma StrayAmpersandLeftAlone(p: string, t: string)
    requires '&' !in p && '&' !in t
    requires t == [] || t[0] != '#'
    requires !At(t, 0, "lt;") && !At(t, 0, "gt;") && !At(t, 0, "quot;") && !At(t, 0, "amp;")
    ensures Scan(p + "&" + t, 0) == p + "&" + t
  {
    var s := p + "&" + t;
    var i := |p|;
    ScanPlainRun(s, 0, i);
    assert s[i] == '&';
    AtAfterAmpersand(p, t, "lt;");
    AtAfterAmpersand(p, t, "gt;");
    AtAfterAmpersand(p, t, "quot;");
    AtAfterAmpersand(p, t, "amp;");
    assert "&" + "lt;" == "&lt;" && "&" + "gt;" == "&gt;";
    assert "&" + "quot;" == "&quot;" && "&" + "amp;" == "&amp;";
    if i + 1 < |s| {
      assert s[i + 1] == t[0];
    }
    assert Scan(s, i) == Scan(s, i + 1);
    forall k | i + 1 <= k < |s|
      ensures s[k] != '&'
    {
      assert s[k] == t[k - i - 1];
    }
    ScanRestPlain(s, i + 1);
  }

  /** "AT&T" and "a & b" come back unchanged. */
  lemma StrayAmpersandExamples()
    ensures Scan("AT&T", 0) == "AT&T"
    ensures Scan("a & b", 0) == "a & b"
  {
    StrayAmpersandLeftAlone("AT", "T");
    assert "AT" + "&" + "T" == "AT&T";
    StrayAmpersandLeftAlone("a ", " b");
    assert "a " + "&" + " b" == "a & b";
  }

  // ---------------------------------------------------------------------
  // Examples.

  /** What &amp; produces is not decoded again. */
  lemma AmpersandNotDecodedTwice()
    ensures Scan("a&amp;lt;", 0) == "a&lt;"
  {
    NamedReferenceDecoded("a", Amp, "lt;");
    assert "a" + EntityText(Amp) + "lt;" == "a&amp;lt;";
    assert "a" + [EntityChar(Amp)] + "lt;" == "a&lt;";
  }

  /** &lt; at the start ends the scan: the &gt; after it stays. */
  lemma FirstReferenceEndsScan()
    ensures Scan("&lt;&gt;", 0) == "<&gt;"
  {
    var ps := [Named(Lt), Named(Gt)];
    assert Encode(ps) == "&lt;&gt;";
    DecodeEndsEarly(ps, 0);
    assert ps[1..] == [Named(Gt)];
  }

  /** After the step back, "&#" made by decoding &amp; is read as the start of
      a decimal reference that swallows the '<'. */
  lemma StepBackDecodesAgain()
    ensures Scan("&amp;#&lt;;", 0) == [NUL]
  {
    AmpThenHash();
    LtAfterHash();
    HashSwallowsLt();
  }

  /** "&amp;#&lt;;": &amp; becomes '&' and the scan moves past it. */
  lemma AmpThenHash()
    ensures Scan("&amp;#&lt;;", 0) == Scan("&#&lt;;", 1)
  {
    var s0 := "&amp;#&lt;;";
    assert At(s0, 0, EntityText(Amp));
    ScanNamedAt(s0, 0, Amp);
    assert s0[..0] + [EntityChar(Amp)] + s0[5..] == "&#&lt;;";
  }

  /** "&#&lt;;" from index 1: '#' is passed, &lt; is replaced, and the
      scan steps back to index 0. */
  lemma LtAfterHash()
    ensures Scan("&#&lt;;", 1) == Scan("&#<;", 0)
  {
    var s1 := "&#&lt;;";
    assert s1[1] == '#';
    ScanPlainAt(s1, 1);
    assert At(s1, 2, EntityText(Lt));
    ScanNamedAt(s1, 2, Lt);
    assert s1[..2] + [EntityChar(Lt)] + s1[6..] == "&#<;";
  }

  /** "&#<;" is a decimal reference with payload "<", whose atoi is 0. */
  lemma HashSwallowsLt()
    ensures Scan("&#<;", 0) == [NUL]
  {
    var s2 := "&#<;";
    assert At(s2, 0, "&#" + "<" + ";");
    ScanNumericAt(s2, 0, "<");
    assert Atoi("<") == 0;
    assert s2[..0] + [NarrowToChar(0)] + s2[4..] == [NUL];
  }
}
