/** Wi-Fi codes of any generator: groups in any order, values escaped more or less, an unfinished end. */
module WifiGroups {
  import opened Domain
  import opened Wifi
  import W = Wifi

  /** A character of a value as printed; only a semicolon and a backslash must be escaped. */
  datatype Symbol = Symbol(character: char, escaped: bool)

  datatype Entry = Entry(letter: char, symbols: seq<Symbol>)

  function Shown(x: Symbol): string { if x.escaped then ['\\', x.character] else [x.character] }

  function Spelled(symbols: seq<Symbol>): string {
    if |symbols| == 0 then "" else Shown(symbols[0]) + Spelled(symbols[1..])
  }

  function Value(symbols: seq<Symbol>): string {
    if |symbols| == 0 then "" else [symbols[0].character] + Value(symbols[1..])
  }

  ghost predicate Readable(symbols: seq<Symbol>) {
    forall i :: 0 <= i < |symbols| && !symbols[i].escaped ==>
      symbols[i].character != ';' && symbols[i].character != '\\'
  }

  function Printed(es: seq<Entry>): string
    decreases |es|
  {
    if |es| == 0 then "" else [es[0].letter, ':'] + Spelled(es[0].symbols) + [';'] + Printed(es[1..])
  }

  ghost predicate EntriesOk(es: seq<Entry>) {
    forall i :: 0 <= i < |es| ==> !W.Special(es[i].letter) && Readable(es[i].symbols)
  }

  /** The value of the last entry of this letter. */
  function LastOf(es: seq<Entry>, letter: char): Option<string> {
    if |es| == 0 then None
    else if es[|es| - 1].letter == letter then Some(Value(es[|es| - 1].symbols))
    else LastOf(es[..|es| - 1], letter)
  }

  function OrElse(value: Option<string>, missing: string): string { if value.Some? then value.value else missing }

  function Stored(fields: map<string, string>, es: seq<Entry>): map<string, string>
    decreases |es|
  {
    if |es| == 0 then fields else Stored(fields[[es[0].letter] := Value(es[0].symbols)], es[1..])
  }

  lemma ReadSymbol(s: Scan, x: Symbol, tail: string)
    requires s.key.Some? && (x.escaped || (x.character != ';' && x.character != '\\'))
    ensures Feed(s, Shown(x) + tail) == Feed(s.(buf := s.buf + [x.character]), tail)
  {
    if x.escaped {
      assert (['\\', x.character] + tail)[2..] == tail;
    } else {
      assert ([x.character] + tail)[1..] == tail;
    }
  }

  lemma Linked(s: Scan, whole: string, first: string, tail: string, next: Scan, last: Scan, rest: string)
    requires whole == first + tail && Feed(s, first + tail) == Feed(next, tail) && Feed(next, tail) == Feed(last, rest)
    ensures Feed(s, whole) == Feed(last, rest)
  {}

  lemma SpelledStep(symbols: seq<Symbol>, rest: string)
    requires |symbols| > 0
    ensures Spelled(symbols) + rest == Shown(symbols[0]) + (Spelled(symbols[1..]) + rest)
    ensures Value(symbols) == [symbols[0].character] + Value(symbols[1..])
  {}

  lemma {:induction false} ReadSymbols(s: Scan, symbols: seq<Symbol>, rest: string, whole: string, last: Scan)
    requires s.key.Some? && Readable(symbols) && whole == Spelled(symbols) + rest
    requires last == s.(buf := s.buf + Value(symbols))
    ensures Feed(s, whole) == Feed(last, rest)
    decreases |symbols|
  {
    if |symbols| == 0 {
      assert whole == rest && last.buf == s.buf;
    } else {
      var x, tail := symbols[0], Spelled(symbols[1..]) + rest;
      var next := s.(buf := s.buf + [x.character]);
      SpelledStep(symbols, rest);
      ReadSymbol(s, x, tail);
      assert last.buf == next.buf + Value(symbols[1..]);
      ReadSymbols(next, symbols[1..], rest, tail, last);
      Linked(s, whole, Shown(x), tail, next, last, rest);
    }
  }

  lemma ReadEntry(s: Scan, e: Entry, rest: string)
    requires s.key.None? && s.buf == "" && !W.Special(e.letter) && Readable(e.symbols)
    ensures Feed(s, [e.letter, ':'] + Spelled(e.symbols) + [';'] + rest) ==
            Feed(Scan(s.fields[[e.letter] := Value(e.symbols)], None, ""), rest)
  {
    var keyed := Scan(s.fields, Some([e.letter]), "");
    var tail := Spelled(e.symbols) + ([';'] + rest);
    assert [e.letter, ':'] + Spelled(e.symbols) + [';'] + rest == [e.letter, ':'] + tail;
    OpenKey(s, e.letter, tail);
    assert keyed.buf + Value(e.symbols) == Value(e.symbols);
    ReadSymbols(keyed, e.symbols, [';'] + rest, tail, keyed.(buf := Value(e.symbols)));
    CloseKey(keyed.(buf := Value(e.symbols)), rest);
  }

  lemma {:induction false} ReadEntries(s: Scan, es: seq<Entry>, rest: string)
    requires s.key.None? && s.buf == "" && EntriesOk(es)
    ensures Feed(s, Printed(es) + rest) == Feed(Scan(Stored(s.fields, es), None, ""), rest)
    decreases |es|
  {
    if |es| == 0 {
      assert Printed(es) + rest == rest;
    } else {
      var tail := Printed(es[1..]) + rest;
      assert Printed(es) + rest == [es[0].letter, ':'] + Spelled(es[0].symbols) + [';'] + tail;
      ReadEntry(s, es[0], tail);
      ReadEntries(Scan(s.fields[[es[0].letter] := Value(es[0].symbols)], None, ""), es[1..], rest);
    }
  }

  lemma {:induction false} StoredLast(fields: map<string, string>, es: seq<Entry>)
    requires |es| > 0
    ensures var n := |es| - 1;
            Stored(fields, es) == Stored(fields, es[..n])[[es[n].letter] := Value(es[n].symbols)]
    decreases |es|
  {
    if |es| > 1 {
      StoredLast(fields[[es[0].letter] := Value(es[0].symbols)], es[1..]);
      assert es[1..][..|es| - 2] == es[..|es| - 1][1..];
    }
  }

  lemma {:induction false} StoredIsLast(es: seq<Entry>, letter: char)
    ensures [letter] in Stored(map[], es) <==> LastOf(es, letter).Some?
    ensures LastOf(es, letter).Some? ==> Stored(map[], es)[[letter]] == LastOf(es, letter).value
    decreases |es|
  {
    if |es| > 0 {
      StoredLast(map[], es);
      StoredIsLast(es[..|es| - 1], letter);
      assert [es[|es| - 1].letter] == [letter] <==> es[|es| - 1].letter == letter;
    }
  }

  /** Without another semicolon nothing more is stored. */
  lemma {:induction false} UnfinishedIsDropped(s: Scan, rest: string)
    requires forall i :: 0 <= i < |rest| ==> rest[i] != ';'
    ensures Feed(s, rest).fields == s.fields
    decreases |rest|
  {
    if |rest| > 0 {
      if rest[0] == '\\' && |rest| > 1 {
        UnfinishedIsDropped(s.(buf := s.buf + [rest[1]]), rest[2..]);
      } else {
        UnfinishedIsDropped(Plain(s, rest[0]), rest[1..]);
      }
    }
  }

  /** A code made of groups, closed by one more semicolon or ending in anything without one, is a network if and only
      if its last S group is not empty; password and type are those of the last P and T groups, "" and "WPA" when
      there is none. Colons and commas in values need no escape. */
  lemma AnyGroupsRead(es: seq<Entry>, closing: string)
    requires EntriesOk(es) && (closing == ";" || forall i :: 0 <= i < |closing| ==> closing[i] != ';')
    ensures Parse("WIFI:" + Printed(es) + closing) ==
            var ssid := OrElse(LastOf(es, 'S'), "");
            if ssid == "" then None
            else Some(Network(ssid, OrElse(LastOf(es, 'P'), ""), OrElse(LastOf(es, 'T'), "WPA")))
  {
    var code := "WIFI:" + Printed(es) + closing;
    assert code[..5] == "WIFI:" && code[5..] == Printed(es) + closing;
    ReadEntries(START, es, closing);
    if closing == ";" {
      LastSemicolon(Stored(map[], es));
    } else {
      UnfinishedIsDropped(Scan(Stored(map[], es), None, ""), closing);
    }
    StoredIsLast(es, 'S');
    StoredIsLast(es, 'P');
    StoredIsLast(es, 'T');
    assert "S" == ['S'] && "P" == ['P'] && "T" == ['T'];
  }

  /** A backslash that ends the code stands for itself. */
  lemma LastBackslashStays(s: Scan)
    ensures Feed(s, "\\") == s.(buf := s.buf + "\\")
  {
    assert "\\"[1..] == "";
  }

  /** The printer escapes backslash, semicolon, comma and colon, and nothing else, character by character. */
  lemma EscapesExactly(c: char, rest: string)
    ensures EscapeField([c] + rest) ==
            (if c == '\\' || c == ';' || c == ',' || c == ':' then ['\\', c] else [c]) + EscapeField(rest)
    ensures EscapeField("") == ""
  {
    assert ([c] + rest)[1..] == rest;
  }
}
