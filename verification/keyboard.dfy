/** The keyboard-like scanner: US-layout key maps, the event decoder, and typing as its inverse. */
module Keyboard {
  import opened Domain
  import opened Wifi

  datatype Key =
    | LetterKey(letter: char) | DigitKey(digit: char)
    | MinusKey | EqualKey | LeftBraceKey | RightBraceKey | SemicolonKey | ApostropheKey | GraveKey | BackslashKey
    | CommaKey | DotKey | SlashKey | SpaceKey
    | EnterKey | LeftShift | RightShift | OtherKey(code: nat)

  datatype KeyState = Up | Down | Hold

  /** Other device events (synchronisation reports and the like) carry no key. */
  datatype Event = NotAKey | KeyEvent(key: Key, state: KeyState)

  predicate IsShift(k: Key) { k == LeftShift || k == RightShift }

  // ---------------------------------------------------------------- the key maps

  const DIGIT_SHIFT: string := ")!@#$%^&*("

  /** The punctuation keys with their plain and shifted characters, as the table lists them. */
  const PUNCTUATION: seq<(Key, char, char)> := [
    (MinusKey, '-', '_'), (EqualKey, '=', '+'), (LeftBraceKey, '[', '{'), (RightBraceKey, ']', '}'),
    (SemicolonKey, ';', ':'), (ApostropheKey, '\'', '"'), (GraveKey, '`', '~'), (BackslashKey, '\\', '|'),
    (CommaKey, ',', '<'), (DotKey, '.', '>'), (SlashKey, '/', '?'), (SpaceKey, ' ', ' ')]

  /** The same as a lookup. */
  function Punctuation(k: Key): Option<(char, char)> {
    match k
    case MinusKey => Some(('-', '_'))
    case EqualKey => Some(('=', '+'))
    case LeftBraceKey => Some(('[', '{'))
    case RightBraceKey => Some((']', '}'))
    case SemicolonKey => Some((';', ':'))
    case ApostropheKey => Some(('\'', '"'))
    case GraveKey => Some(('`', '~'))
    case BackslashKey => Some(('\\', '|'))
    case CommaKey => Some((',', '<'))
    case DotKey => Some(('.', '>'))
    case SlashKey => Some(('/', '?'))
    case SpaceKey => Some((' ', ' '))
    case _ => None
  }

  predicate Upper(c: char) { 'A' <= c <= 'Z' }

  predicate Digit(c: char) { '0' <= c <= '9' }

  function Lower(c: char): char
    requires Upper(c)
  {
    (c as int + 32) as char
  }

  /** The character a key types with and without shift; None for a key outside the tables. */
  function Typed(k: Key, shift: bool): Option<char> {
    match k
    case LetterKey(c) => if Upper(c) then Some(if shift then c else Lower(c)) else None
    case DigitKey(d) => if Digit(d) then Some(if shift then DIGIT_SHIFT[d as int - '0' as int] else d) else None
    case _ =>
      var found := Punctuation(k);
      if found.Some? then Some(if shift then found.value.1 else found.value.0) else None
  }

  ghost predicate TableFor(table: map<Key, char>, shift: bool) {
    forall k :: (k in table <==> Typed(k, shift).Some?) && (k in table ==> Typed(k, shift) == Some(table[k]))
  }

  /** The two tables hold the same keys, with the characters they type. */
  ghost predicate Agree(unshifted: map<Key, char>, shifted: map<Key, char>) {
    && (forall k :: k in shifted <==> k in unshifted)
    && (forall k :: k in unshifted ==> Typed(k, false) == Some(unshifted[k]) && Typed(k, true) == Some(shifted[k]))
  }

  method LetterTables() returns (unshifted: map<Key, char>, shifted: map<Key, char>)
    ensures Agree(unshifted, shifted)
    ensures forall k :: k in unshifted <==> k.LetterKey? && Upper(k.letter)
  {
    unshifted, shifted := map[], map[];
    for i := 0 to 26
      invariant forall k :: k in unshifted <==> k.LetterKey? && 'A' as int <= k.letter as int < 'A' as int + i
      invariant Agree(unshifted, shifted)
    {
      var c := ('A' as int + i) as char;
      unshifted := unshifted[LetterKey(c) := Lower(c)];
      shifted := shifted[LetterKey(c) := c];
    }
  }

  method AddDigits(plain: map<Key, char>, capital: map<Key, char>)
    returns (unshifted: map<Key, char>, shifted: map<Key, char>)
    requires Agree(plain, capital)
    ensures Agree(unshifted, shifted)
    ensures forall k :: k in unshifted <==> k in plain || (k.DigitKey? && Digit(k.digit))
  {
    unshifted, shifted := plain, capital;
    for i := 0 to 10
      invariant forall k :: k in unshifted <==>
                  k in plain || (k.DigitKey? && '0' as int <= k.digit as int < '0' as int + i)
      invariant Agree(unshifted, shifted)
    {
      var d := ('0' as int + i) as char;
      unshifted := unshifted[DigitKey(d) := d];
      shifted := shifted[DigitKey(d) := DIGIT_SHIFT[i]];
    }
  }

  ghost predicate Among(entries: seq<(Key, char, char)>, k: Key) {
    exists i :: 0 <= i < |entries| && entries[i].0 == k
  }

  lemma AmongNext(entries: seq<(Key, char, char)>, i: nat, k: Key)
    requires i < |entries|
    ensures Among(entries[..i + 1], k) <==> Among(entries[..i], k) || k == entries[i].0
  {
    if Among(entries[..i], k) {
      var j :| 0 <= j < i && entries[..i][j].0 == k;
      assert entries[..i + 1][j].0 == k;
    }
    if k == entries[i].0 {
      assert entries[..i + 1][i].0 == k;
    }
    if Among(entries[..i + 1], k) && k != entries[i].0 {
      var j :| 0 <= j < i + 1 && entries[..i + 1][j].0 == k;
      assert entries[..i][j].0 == k;
    }
  }

  lemma PunctuationListed(i: nat)
    requires i < |PUNCTUATION|
    ensures Punctuation(PUNCTUATION[i].0) == Some((PUNCTUATION[i].1, PUNCTUATION[i].2))
  {}

  method AddPunctuation(plain: map<Key, char>, capital: map<Key, char>)
    returns (unshifted: map<Key, char>, shifted: map<Key, char>)
    requires Agree(plain, capital)
    ensures Agree(unshifted, shifted)
    ensures forall k :: k in unshifted <==> k in plain || Among(PUNCTUATION, k)
  {
    unshifted, shifted := plain, capital;
    for i := 0 to |PUNCTUATION|
      invariant forall k :: k in unshifted <==> k in plain || Among(PUNCTUATION[..i], k)
      invariant Agree(unshifted, shifted)
    {
      var (key, lo, hi) := PUNCTUATION[i];
      PunctuationListed(i);
      forall k ensures Among(PUNCTUATION[..i + 1], k) <==> Among(PUNCTUATION[..i], k) || k == key {
        AmongNext(PUNCTUATION, i, k);
      }
      unshifted := unshifted[key := lo];
      shifted := shifted[key := hi];
    }
    assert PUNCTUATION[..|PUNCTUATION|] == PUNCTUATION;
  }

  lemma PunctuationComplete(k: Key)
    ensures Among(PUNCTUATION, k) <==> Punctuation(k).Some?
  {
    var i := match k
      case MinusKey => 0 case EqualKey => 1 case LeftBraceKey => 2 case RightBraceKey => 3 case SemicolonKey => 4
      case ApostropheKey => 5 case GraveKey => 6 case BackslashKey => 7 case CommaKey => 8 case DotKey => 9
      case SlashKey => 10 case _ => 11;
    assert PUNCTUATION[i].0 == PUNCTUATION[i].0;
    if Among(PUNCTUATION, k) {
      var j :| 0 <= j < |PUNCTUATION| && PUNCTUATION[j].0 == k;
      PunctuationListed(j);
    }
  }

  /** Fills both tables: letters, then digits, then punctuation. */
  method EvdevKeymaps() returns (unshifted: map<Key, char>, shifted: map<Key, char>)
    ensures TableFor(unshifted, false) && TableFor(shifted, true)
  {
    unshifted, shifted := LetterTables();
    unshifted, shifted := AddDigits(unshifted, shifted);
    unshifted, shifted := AddPunctuation(unshifted, shifted);
    forall k ensures k in unshifted <==> Typed(k, false).Some? {
      PunctuationComplete(k);
    }
  }

  // ---------------------------------------------------------------- the decoder

  datatype Reader = Reader(buf: string, shift: bool, codes: seq<string>)

  const IDLE := Reader("", false, [])

  function See(r: Reader, e: Event): Reader {
    if e.NotAKey? then r
    else if IsShift(e.key) then r.(shift := e.state != Up)
    else if e.state != Down then r
    else if e.key == EnterKey then Reader("", r.shift, if |r.buf| > 0 then r.codes + [r.buf] else r.codes)
    else
      var c := Typed(e.key, r.shift);
      if c.Some? then r.(buf := r.buf + [c.value]) else r
  }

  function SeeAll(r: Reader, events: seq<Event>): Reader {
    if |events| == 0 then r else See(SeeAll(r, events[..|events| - 1]), events[|events| - 1])
  }

  /** The codes yielded for a stream of device events. */
  method ReadCodesHid(events: seq<Event>) returns (codes: seq<string>)
    ensures codes == SeeAll(IDLE, events).codes
  {
    var unshifted, shifted := EvdevKeymaps();
    var buf := "";
    var shift := false;
    codes := [];
    var i := 0;
    while i < |events|
      invariant 0 <= i <= |events|
      invariant SeeAll(IDLE, events[..i]) == Reader(buf, shift, codes)
    {
      var e := events[i];
      assert events[..i + 1][..i] == events[..i];
      i := i + 1;
      if e.NotAKey? {
        continue;
      }
      if IsShift(e.key) {
        shift := e.state != Up;
        continue;
      }
      if e.state != Down {
        continue;
      }
      if e.key == EnterKey {
        if |buf| > 0 {
          codes := codes + [buf];
        }
        buf := "";
      } else {
        var table := if shift then shifted else unshifted;
        if e.key in table {
          buf := buf + [table[e.key]];
        }
      }
    }
    assert events[..|events|] == events;
  }

  // ---------------------------------------------------------------- typing

  predicate Printable(c: char) { ' ' <= c <= '~' }

  /** The key a printable character is on, and whether it needs shift (a space does not care). */
  function KeyFor(c: char): (Key, bool)
    requires Printable(c)
  {
    if Upper(c) then (LetterKey(c), true)
    else if 'a' <= c <= 'z' then (LetterKey((c as int - 32) as char), false)
    else if Digit(c) then (DigitKey(c), false)
    else match c
      case ')' => (DigitKey('0'), true) case '!' => (DigitKey('1'), true) case '@' => (DigitKey('2'), true)
      case '#' => (DigitKey('3'), true) case '$' => (DigitKey('4'), true) case '%' => (DigitKey('5'), true)
      case '^' => (DigitKey('6'), true) case '&' => (DigitKey('7'), true) case '*' => (DigitKey('8'), true)
      case '(' => (DigitKey('9'), true)
      case '-' => (MinusKey, false) case '_' => (MinusKey, true)
      case '=' => (EqualKey, false) case '+' => (EqualKey, true)
      case '[' => (LeftBraceKey, false) case '{' => (LeftBraceKey, true)
      case ']' => (RightBraceKey, false) case '}' => (RightBraceKey, true)
      case ';' => (SemicolonKey, false) case ':' => (SemicolonKey, true)
      case '\'' => (ApostropheKey, false) case '"' => (ApostropheKey, true)
      case '`' => (GraveKey, false) case '~' => (GraveKey, true)
      case '\\' => (BackslashKey, false) case '|' => (BackslashKey, true)
      case ',' => (CommaKey, false) case '<' => (CommaKey, true)
      case '.' => (DotKey, false) case '>' => (DotKey, true)
      case '/' => (SlashKey, false) case '?' => (SlashKey, true)
      case _ => (SpaceKey, false)
  }

  /** Every printable character is on some key of the tables. */
  lemma EveryCharacterHasItsKey(c: char)
    requires Printable(c)
    ensures var (key, shift) := KeyFor(c);
            Typed(key, shift) == Some(c) && !IsShift(key) && key != EnterKey
              && (c == ' ' ==> Typed(key, true) == Some(c))
  {}

  /** Events that type nothing while shift is (not) held: reports, releases and repeats of other
      keys, and repeats of the held shift key. */
  predicate Idles(e: Event, shiftKey: Key, held: bool) {
    || e.NotAKey?
    || (!IsShift(e.key) && e.state != Down)
    || (held && e == KeyEvent(shiftKey, Hold))
  }

  ghost predicate AllIdle(events: seq<Event>, shiftKey: Key, held: bool) {
    forall i :: 0 <= i < |events| ==> Idles(events[i], shiftKey, held)
  }

  /** One character as pressed: idle events before the shift change, before and after the key press,
      and whether shift is let go afterwards. */
  datatype Stroke = Stroke(character: char, before: seq<Event>, ready: seq<Event>, after: seq<Event>, release: bool)

  /** Whether shift is held while the character is pressed; a space leaves it as it is. */
  function Needs(c: char, held: bool): bool
    requires Printable(c)
  {
    if c == ' ' then held else KeyFor(c).1
  }

  function ShiftChange(shiftKey: Key, held: bool, wanted: bool): seq<Event> {
    if held == wanted then [] else [KeyEvent(shiftKey, if wanted then Down else Up)]
  }

  function Press(before: seq<Event>, toShift: seq<Event>, ready: seq<Event>, press: Event, after: seq<Event>,
                 fromShift: seq<Event>):
    seq<Event>
  {
    before + (toShift + (ready + ([press] + (after + fromShift))))
  }

  function StrokeEvents(s: Stroke, shiftKey: Key, held: bool): seq<Event>
    requires Printable(s.character)
  {
    var needs := Needs(s.character, held);
    Press(s.before, ShiftChange(shiftKey, held, needs), s.ready, KeyEvent(KeyFor(s.character).0, Down), s.after,
          ShiftChange(shiftKey, needs, needs && !s.release))
  }

  ghost predicate StrokeOk(s: Stroke, shiftKey: Key, held: bool) {
    && Printable(s.character)
    && AllIdle(s.before, shiftKey, held)
    && AllIdle(s.ready, shiftKey, Needs(s.character, held))
    && AllIdle(s.after, shiftKey, Needs(s.character, held))
  }

  function HeldAfter(s: Stroke, held: bool): bool
    requires Printable(s.character)
  {
    Needs(s.character, held) && !s.release
  }

  ghost predicate StrokesOk(strokes: seq<Stroke>, shiftKey: Key, held: bool) {
    |strokes| > 0 ==>
      StrokeOk(strokes[0], shiftKey, held) && StrokesOk(strokes[1..], shiftKey, HeldAfter(strokes[0], held))
  }

  function Text(strokes: seq<Stroke>): string {
    if |strokes| == 0 then "" else [strokes[0].character] + Text(strokes[1..])
  }

  function Held(strokes: seq<Stroke>, shiftKey: Key, held: bool): bool
    requires StrokesOk(strokes, shiftKey, held)
  {
    if |strokes| == 0 then held else Held(strokes[1..], shiftKey, HeldAfter(strokes[0], held))
  }

  function StrokesEvents(strokes: seq<Stroke>, shiftKey: Key, held: bool): seq<Event>
    requires StrokesOk(strokes, shiftKey, held)
  {
    if |strokes| == 0 then []
    else StrokeEvents(strokes[0], shiftKey, held) + StrokesEvents(strokes[1..], shiftKey, HeldAfter(strokes[0], held))
  }

  /** One string as typed: its strokes, idle events, Enter, idle events. */
  datatype Line = Line(strokes: seq<Stroke>, beforeEnter: seq<Event>, afterEnter: seq<Event>)

  ghost predicate LinesOk(lines: seq<Line>, shiftKey: Key, held: bool) {
    |lines| > 0 ==>
      && |lines[0].strokes| > 0 && StrokesOk(lines[0].strokes, shiftKey, held)
      && var end := Held(lines[0].strokes, shiftKey, held);
         AllIdle(lines[0].beforeEnter, shiftKey, end) && AllIdle(lines[0].afterEnter, shiftKey, end)
           && LinesOk(lines[1..], shiftKey, end)
  }

  function LineEvents(l: Line, shiftKey: Key, held: bool): seq<Event>
    requires StrokesOk(l.strokes, shiftKey, held)
  {
    StrokesEvents(l.strokes, shiftKey, held) + l.beforeEnter + [KeyEvent(EnterKey, Down)] + l.afterEnter
  }

  function LinesEvents(lines: seq<Line>, shiftKey: Key, held: bool): seq<Event>
    requires LinesOk(lines, shiftKey, held)
  {
    if |lines| == 0 then []
    else
      var l := lines[0];
      LineEvents(l, shiftKey, held) + LinesEvents(lines[1..], shiftKey, Held(l.strokes, shiftKey, held))
  }

  function Texts(lines: seq<Line>): seq<string> {
    if |lines| == 0 then [] else [Text(lines[0].strokes)] + Texts(lines[1..])
  }

  // ---------------------------------------------------------------- typed, then decoded

  lemma {:induction false} SeeConcat(r: Reader, xs: seq<Event>, ys: seq<Event>)
    ensures SeeAll(r, xs + ys) == SeeAll(SeeAll(r, xs), ys)
    decreases |ys|
  {
    if |ys| == 0 {
      assert xs + ys == xs;
    } else {
      assert (xs + ys)[..|xs + ys| - 1] == xs + ys[..|ys| - 1];
      SeeConcat(r, xs, ys[..|ys| - 1]);
    }
  }

  lemma SeeOne(r: Reader, e: Event)
    ensures SeeAll(r, [e]) == See(r, e)
  {
    assert [e][..0] == [];
    assert SeeAll(r, [e][..0]) == r;
  }

  lemma {:induction false} IdleSeesNothing(r: Reader, events: seq<Event>, shiftKey: Key)
    requires AllIdle(events, shiftKey, r.shift) && IsShift(shiftKey)
    ensures SeeAll(r, events) == r
    decreases |events|
  {
    if |events| > 0 {
      IdleSeesNothing(r, events[..|events| - 1], shiftKey);
    }
  }

  lemma SeeShiftChange(r: Reader, shiftKey: Key, wanted: bool)
    requires IsShift(shiftKey)
    ensures SeeAll(r, ShiftChange(shiftKey, r.shift, wanted)) == r.(shift := wanted)
  {
    if r.shift != wanted {
      SeeOne(r, KeyEvent(shiftKey, if wanted then Down else Up));
    }
  }

  lemma SeeThen(r: Reader, xs: seq<Event>, mid: Reader, ys: seq<Event>)
    requires SeeAll(r, xs) == mid
    ensures SeeAll(r, xs + ys) == SeeAll(mid, ys)
  {
    SeeConcat(r, xs, ys);
  }

  /** One press among idle events types its character and leaves shift as released or held. */
  lemma SeePress(r: Reader, before: seq<Event>, ready: seq<Event>, key: Key, c: char, after: seq<Event>,
                 needs: bool, keep: bool, shiftKey: Key)
    requires IsShift(shiftKey) && !IsShift(key) && key != EnterKey && Typed(key, needs) == Some(c)
    requires AllIdle(before, shiftKey, r.shift) && AllIdle(ready, shiftKey, needs) && AllIdle(after, shiftKey, needs)
    ensures SeeAll(r, Press(before, ShiftChange(shiftKey, r.shift, needs), ready, KeyEvent(key, Down), after,
                            ShiftChange(shiftKey, needs, keep))) == Reader(r.buf + [c], keep, r.codes)
  {
    var press := KeyEvent(key, Down);
    var toShift := ShiftChange(shiftKey, r.shift, needs);
    var fromShift := ShiftChange(shiftKey, needs, keep);
    var shifted := r.(shift := needs);
    var pressed := shifted.(buf := r.buf + [c]);
    IdleSeesNothing(r, before, shiftKey);
    SeeThen(r, before, r, toShift + (ready + ([press] + (after + fromShift))));
    SeeShiftChange(r, shiftKey, needs);
    SeeThen(r, toShift, shifted, ready + ([press] + (after + fromShift)));
    IdleSeesNothing(shifted, ready, shiftKey);
    SeeThen(shifted, ready, shifted, [press] + (after + fromShift));
    SeeOne(shifted, press);
    SeeThen(shifted, [press], pressed, after + fromShift);
    IdleSeesNothing(pressed, after, shiftKey);
    SeeThen(pressed, after, pressed, fromShift);
    SeeShiftChange(pressed, shiftKey, keep);
  }

  lemma SeeStroke(r: Reader, s: Stroke, shiftKey: Key)
    requires IsShift(shiftKey) && StrokeOk(s, shiftKey, r.shift)
    ensures SeeAll(r, StrokeEvents(s, shiftKey, r.shift)) ==
            Reader(r.buf + [s.character], HeldAfter(s, r.shift), r.codes)
  {
    var needs := Needs(s.character, r.shift);
    EveryCharacterHasItsKey(s.character);
    SeePress(r, s.before, s.ready, KeyFor(s.character).0, s.character, s.after, needs, needs && !s.release, shiftKey);
  }

  lemma TextInARow(before: string, c: char, after: string)
    ensures before + [c] + after == before + ([c] + after)
  {}

  lemma ThenText(r: Reader, first: seq<Event>, c: char, held: bool, rest: seq<Event>, text: string, end: bool)
    requires SeeAll(r, first) == Reader(r.buf + [c], held, r.codes)
    requires SeeAll(Reader(r.buf + [c], held, r.codes), rest) == Reader(r.buf + [c] + text, end, r.codes)
    ensures SeeAll(r, first + rest) == Reader(r.buf + ([c] + text), end, r.codes)
  {
    SeeConcat(r, first, rest);
    TextInARow(r.buf, c, text);
  }

  lemma {:induction false} SeeStrokes(r: Reader, strokes: seq<Stroke>, shiftKey: Key)
    requires IsShift(shiftKey) && StrokesOk(strokes, shiftKey, r.shift)
    ensures SeeAll(r, StrokesEvents(strokes, shiftKey, r.shift)) ==
            Reader(r.buf + Text(strokes), Held(strokes, shiftKey, r.shift), r.codes)
    decreases |strokes|
  {
    if |strokes| == 0 {
      assert r.buf + "" == r.buf;
    } else {
      var c := strokes[0].character;
      var held := HeldAfter(strokes[0], r.shift);
      SeeStroke(r, strokes[0], shiftKey);
      SeeStrokes(Reader(r.buf + [c], held, r.codes), strokes[1..], shiftKey);
      ThenText(r, StrokeEvents(strokes[0], shiftKey, r.shift), c, held,
               StrokesEvents(strokes[1..], shiftKey, held), Text(strokes[1..]), Held(strokes[1..], shiftKey, held));
    }
  }

  lemma SeeLine(r: Reader, l: Line, shiftKey: Key)
    requires IsShift(shiftKey) && r.buf == "" && |l.strokes| > 0 && StrokesOk(l.strokes, shiftKey, r.shift)
    requires var end := Held(l.strokes, shiftKey, r.shift);
             AllIdle(l.beforeEnter, shiftKey, end) && AllIdle(l.afterEnter, shiftKey, end)
    ensures SeeAll(r, LineEvents(l, shiftKey, r.shift)) ==
            Reader("", Held(l.strokes, shiftKey, r.shift), r.codes + [Text(l.strokes)])
  {
    var typed := StrokesEvents(l.strokes, shiftKey, r.shift);
    var enter := KeyEvent(EnterKey, Down);
    var full := Reader(Text(l.strokes), Held(l.strokes, shiftKey, r.shift), r.codes);
    var done := Reader("", full.shift, r.codes + [full.buf]);
    SeeStrokes(r, l.strokes, shiftKey);
    assert r.buf + Text(l.strokes) == Text(l.strokes);
    SeeConcat(r, typed, l.beforeEnter);
    IdleSeesNothing(full, l.beforeEnter, shiftKey);
    SeeConcat(r, typed + l.beforeEnter, [enter]);
    SeeOne(full, enter);
    assert |full.buf| > 0;
    SeeConcat(r, typed + l.beforeEnter + [enter], l.afterEnter);
    IdleSeesNothing(done, l.afterEnter, shiftKey);
  }

  lemma CodesInARow(before: seq<string>, code: string, after: seq<string>)
    ensures before + [code] + after == before + ([code] + after)
  {}

  lemma ThenCodes(r: Reader, first: seq<Event>, mid: Reader, code: string, rest: seq<Event>, codes: seq<string>)
    requires SeeAll(r, first) == mid && mid.codes == r.codes + [code]
    requires SeeAll(mid, rest).codes == mid.codes + codes
    ensures SeeAll(r, first + rest).codes == r.codes + ([code] + codes)
  {
    SeeConcat(r, first, rest);
    CodesInARow(r.codes, code, codes);
  }

  lemma {:induction false} SeeLines(r: Reader, lines: seq<Line>, shiftKey: Key)
    requires IsShift(shiftKey) && r.buf == "" && LinesOk(lines, shiftKey, r.shift)
    ensures SeeAll(r, LinesEvents(lines, shiftKey, r.shift)).codes == r.codes + Texts(lines)
    decreases |lines|
  {
    if |lines| == 0 {
      assert r.codes + [] == r.codes;
    } else {
      var l := lines[0];
      var end := Held(l.strokes, shiftKey, r.shift);
      var next := Reader("", end, r.codes + [Text(l.strokes)]);
      SeeLine(r, l, shiftKey);
      SeeLines(next, lines[1..], shiftKey);
      ThenCodes(r, LineEvents(l, shiftKey, r.shift), next, Text(l.strokes), LinesEvents(lines[1..], shiftKey, end),
                Texts(lines[1..]));
    }
  }

  /** Typed round trip: however the strings are typed (either shift key, pressed per character or held
      on, with releases, repeats and reports anywhere), the decoder yields exactly those strings. */
  lemma TypedRoundTrip(lines: seq<Line>, shiftKey: Key)
    requires IsShift(shiftKey) && LinesOk(lines, shiftKey, false)
    ensures SeeAll(IDLE, LinesEvents(lines, shiftKey, false)).codes == Texts(lines)
  {
    SeeLines(IDLE, lines, shiftKey);
    assert [] + Texts(lines) == Texts(lines);
  }

  /** Enter on an empty line yields nothing, and a key without a character adds none. */
  lemma NothingTyped(r: Reader, key: Key)
    ensures r.buf == "" ==> See(r, KeyEvent(EnterKey, Down)) == r
    ensures !IsShift(key) && key != EnterKey && Typed(key, r.shift).None? ==> See(r, KeyEvent(key, Down)) == r
  {}

  // ---------------------------------------------------------------- print, type, decode, parse

  datatype Action = Ignore | JoinWifi(network: Network) | SubmitScan(code: string)

  /** What the main loop does with a decoded code. */
  function Dispatch(code: string, minLength: nat): Action {
    if |code| < minLength then Ignore
    else
      var network := Parse(code);
      if network.Some? then JoinWifi(network.value) else SubmitScan(code)
  }

  /** Scanning a printed configuration joins exactly the network it was printed for, and is never
      sent to the check-in endpoint. */
  lemma PrintedNetworkIsJoined(ssid: string, password: string, auth: Auth, line: Line, shiftKey: Key, minLength: nat)
    requires ssid != "" && IsShift(shiftKey) && LinesOk([line], shiftKey, false)
    requires Text(line.strokes) == BuildPayload(ssid, password, auth)
    requires minLength <= |BuildPayload(ssid, password, auth)|
    ensures var codes := SeeAll(IDLE, LinesEvents([line], shiftKey, false)).codes;
            && |codes| == 1
            && Dispatch(codes[0], minLength) ==
               JoinWifi(if auth == NoPass then Network(ssid, "", "nopass") else Network(ssid, password, "WPA"))
  {
    TypedRoundTrip([line], shiftKey);
    assert Texts([line]) == [Text(line.strokes)];
    RoundTrip(ssid, password, auth);
  }

  ghost predicate AllPrintable(s: string) { forall i :: 0 <= i < |s| ==> Printable(s[i]) }

  lemma {:induction false} EscapeStaysPrintable(s: string)
    requires AllPrintable(s)
    ensures AllPrintable(EscapeField(s))
    decreases |s|
  {
    if |s| > 0 {
      assert AllPrintable(s[1..]);
      EscapeStaysPrintable(s[1..]);
    }
  }

  /** The plainest way to type a string: shift pressed and released around each character. */
  function Strokes(s: string): seq<Stroke> {
    if |s| == 0 then [] else [Stroke(s[0], [], [], [NotAKey], true)] + Strokes(s[1..])
  }

  lemma {:induction false} StrokesTypeIt(s: string, shiftKey: Key)
    requires AllPrintable(s)
    ensures StrokesOk(Strokes(s), shiftKey, false) && Text(Strokes(s)) == s && |Strokes(s)| == |s|
    decreases |s|
  {
    if |s| > 0 {
      assert AllPrintable(s[1..]);
      StrokesTypeIt(s[1..], shiftKey);
      assert Strokes(s)[1..] == Strokes(s[1..]);
    }
  }

  lemma PayloadIsPrintable(ssid: string, password: string, auth: Auth)
    requires AllPrintable(ssid) && AllPrintable(password)
    ensures AllPrintable(BuildPayload(ssid, password, auth))
  {
    EscapeStaysPrintable(ssid);
    EscapeStaysPrintable(password);
  }

  lemma OneLineIsOk(strokes: seq<Stroke>, shiftKey: Key)
    requires |strokes| > 0 && StrokesOk(strokes, shiftKey, false)
    ensures LinesOk([Line(strokes, [], [])], shiftKey, false)
  {
    assert [Line(strokes, [], [])][1..] == [];
  }

  /** Every configuration with printable-ASCII credentials can be typed, so the whole chain print,
      type, decode, parse is the identity on them. */
  lemma PrintableCredentialsCanBeTyped(ssid: string, password: string, auth: Auth, shiftKey: Key)
    requires ssid != "" && AllPrintable(ssid) && AllPrintable(password) && IsShift(shiftKey)
    ensures var line := Line(Strokes(BuildPayload(ssid, password, auth)), [], []);
            LinesOk([line], shiftKey, false) && Text(line.strokes) == BuildPayload(ssid, password, auth)
  {
    var payload := BuildPayload(ssid, password, auth);
    PayloadIsPrintable(ssid, password, auth);
    StrokesTypeIt(payload, shiftKey);
    OneLineIsOk(Strokes(payload), shiftKey);
  }
}
