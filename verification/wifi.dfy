/** The Wi-Fi configuration QR: what the admin page prints and what the scanner parses. */
module Wifi {
  import opened Domain

  datatype Auth = WPA | NoPass

  // ---------------------------------------------------------------- the printer

  predicate Special(c: char) { c == '\\' || c == ';' || c == ',' || c == ':' }

  /** A backslash before each of the four special characters. */
  function EscapeField(s: string): string {
    if |s| == 0 then ""
    else (if Special(s[0]) then ['\\', s[0]] else [s[0]]) + EscapeField(s[1..])
  }

  function BuildPayload(ssid: string, password: string, auth: Auth): string {
    if auth == NoPass then "WIFI:T:nopass;S:" + EscapeField(ssid) + ";;"
    else "WIFI:T:WPA;S:" + EscapeField(ssid) + ";P:" + EscapeField(password) + ";;"
  }

  // ---------------------------------------------------------------- the parser

  /** Loop state: fields stored so far, the key being filled if its colon was seen, the buffer. */
  datatype Scan = Scan(fields: map<string, string>, key: Option<string>, buf: string)

  const START := Scan(map[], None, "")

  /** One unescaped character. */
  function Plain(s: Scan, c: char): Scan {
    if c == ':' && s.key.None? then Scan(s.fields, Some(s.buf), "")
    else if c == ';' then Scan(if s.key.Some? then s.fields[s.key.value := s.buf] else s.fields, None, "")
    else s.(buf := s.buf + [c])
  }

  /** The rest of the loop from position `i` on; a backslash takes the next character literally,
      and stands for itself at the very end. */
  function Feed(s: Scan, body: string): Scan
    decreases |body|
  {
    if |body| == 0 then s
    else if body[0] == '\\' && |body| > 1 then Feed(s.(buf := s.buf + [body[1]]), body[2..])
    else Feed(Plain(s, body[0]), body[1..])
  }

  datatype Network = Network(ssid: string, password: string, auth: string)

  function Field(fields: map<string, string>, name: string, missing: string): string {
    if name in fields then fields[name] else missing
  }

  function Conclude(fields: map<string, string>): Option<Network> {
    if Field(fields, "S", "") == "" then None
    else Some(Network(fields["S"], Field(fields, "P", ""), Field(fields, "T", "WPA")))
  }

  function Parse(code: string): Option<Network> {
    if !("WIFI:" <= code) then None else Conclude(Feed(START, code[5..]).fields)
  }

  /** The parser as code: total, its index in bounds, its loop descending. */
  method ParseWifiQr(code: string) returns (network: Option<Network>)
    ensures network == Parse(code)
  {
    if !("WIFI:" <= code) {
      return None;
    }
    var body := code[5..];
    var fields: map<string, string> := map[];
    var key: Option<string> := None;
    var buf := "";
    var i, n := 0, |body|;
    while i < n
      invariant 0 <= i <= n
      invariant Feed(Scan(fields, key, buf), body[i..]) == Feed(START, body)
      decreases n - i
    {
      var c := body[i];
      if c == '\\' && i + 1 < n {
        assert body[i..][2..] == body[i + 2..];
        buf := buf + [body[i + 1]];
        i := i + 2;
        continue;
      }
      assert body[i..][1..] == body[i + 1..];
      if c == ':' && key.None? {
        key := Some(buf);
        buf := "";
      } else if c == ';' {
        if key.Some? {
          fields := fields[key.value := buf];
        }
        key := None;
        buf := "";
      } else {
        buf := buf + [c];
      }
      i := i + 1;
    }
    assert body[n..] == "";
    network := Conclude(fields);
  }

  // ---------------------------------------------------------------- print, then parse

  /** An escaped value is read back into the buffer unchanged, whatever follows it. */
  lemma {:induction false} EscapeReadsBack(s: Scan, value: string, rest: string)
    requires s.key.Some?
    ensures Feed(s, EscapeField(value) + rest) == Feed(s.(buf := s.buf + value), rest)
    decreases |value|
  {
    if |value| == 0 {
      assert EscapeField(value) + rest == rest;
      assert s.buf + value == s.buf;
    } else {
      var tail := EscapeField(value[1..]) + rest;
      var next := s.(buf := s.buf + [value[0]]);
      assert s.buf + [value[0]] + value[1..] == s.buf + value;
      if Special(value[0]) {
        assert EscapeField(value) + rest == ['\\', value[0]] + tail;
        assert (['\\', value[0]] + tail)[2..] == tail;
      } else {
        assert EscapeField(value) + rest == [value[0]] + tail;
        assert ([value[0]] + tail)[1..] == tail;
        assert Feed(s, [value[0]] + tail) == Feed(Plain(s, value[0]), tail);
      }
      EscapeReadsBack(next, value[1..], rest);
    }
  }

  /** A one-letter key and its colon open a value. */
  lemma OpenKey(s: Scan, letter: char, rest: string)
    requires s.key.None? && s.buf == "" && !Special(letter)
    ensures Feed(s, [letter, ':'] + rest) == Feed(Scan(s.fields, Some([letter]), ""), rest)
  {
    var body := [letter, ':'] + rest;
    assert body[1..] == [':'] + rest;
    assert body[1..][1..] == rest;
    assert Plain(s, letter).buf == [letter];
    assert Feed(s, body) == Feed(Plain(s, letter), body[1..]);
    assert Feed(Plain(s, letter), body[1..]) == Feed(Plain(Plain(s, letter), ':'), body[1..][1..]);
  }

  /** A semicolon stores the value. */
  lemma CloseKey(s: Scan, rest: string)
    requires s.key.Some?
    ensures Feed(s, [';'] + rest) == Feed(Scan(s.fields[s.key.value := s.buf], None, ""), rest)
  {
    assert ([';'] + rest)[1..] == rest;
  }

  /** A whole `letter:value;` group stores exactly that value under that key. */
  lemma ReadGroup(s: Scan, letter: char, value: string, rest: string)
    requires s.key.None? && s.buf == "" && !Special(letter)
    ensures Feed(s, [letter, ':'] + EscapeField(value) + [';'] + rest) ==
            Feed(Scan(s.fields[[letter] := value], None, ""), rest)
  {
    var keyed := Scan(s.fields, Some([letter]), "");
    var tail := EscapeField(value) + ([';'] + rest);
    assert [letter, ':'] + EscapeField(value) + [';'] + rest == [letter, ':'] + tail;
    OpenKey(s, letter, tail);
    EscapeReadsBack(keyed, value, [';'] + rest);
    assert keyed.buf + value == value;
    CloseKey(keyed.(buf := value), rest);
  }

  lemma {:induction false} PlainEscapesToItself(value: string)
    requires forall i :: 0 <= i < |value| ==> !Special(value[i])
    ensures EscapeField(value) == value
    decreases |value|
  {
    if |value| > 0 {
      PlainEscapesToItself(value[1..]);
    }
  }

  lemma LastSemicolon(fields: map<string, string>)
    ensures Feed(Scan(fields, None, ""), ";") == Scan(fields, None, "")
  {
    assert ";"[1..] == "";
  }

  function Group(letter: char, value: string): string { [letter, ':'] + EscapeField(value) + [';'] }

  /** Both kinds of payload start with the type and the ssid. */
  lemma ReadTypeAndName(name: string, ssid: string, last: string)
    ensures Feed(START, Group('T', name) + (Group('S', ssid) + last)) ==
            Feed(Scan(map["T" := name, "S" := ssid], None, ""), last)
  {
    ReadGroup(START, 'T', name, Group('S', ssid) + last);
    var typed := START.fields["T" := name];
    assert typed == map["T" := name];
    ReadGroup(Scan(typed, None, ""), 'S', ssid, last);
    assert typed["S" := ssid] == map["T" := name, "S" := ssid];
  }

  lemma Regroup(head: string, group: string, key: string, value: string, close: string, last: string)
    ensures var code := head + group + key + value + (close + last);
            code[..|head|] == head && code[|head|..] == group + (key + value + close + last)
  {
    assert head + group + key + value + (close + last) == head + (group + (key + value + close + last));
  }

  lemma OpenPayload(ssid: string)
    ensures var code := BuildPayload(ssid, "", NoPass);
            |code| > 5 && code[..5] == "WIFI:" && code[5..] == Group('T', "nopass") + (Group('S', ssid) + ";")
  {
    PlainEscapesToItself("nopass");
    assert "WIFI:T:nopass;S:" == "WIFI:" + "T:nopass;" + "S:" && ";;" == ";" + ";";
    assert Group('T', "nopass") == "T:nopass;" && Group('S', ssid) == "S:" + EscapeField(ssid) + ";";
    Regroup("WIFI:", "T:nopass;", "S:", EscapeField(ssid), ";", ";");
  }

  lemma RoundTripOpen(ssid: string)
    requires ssid != ""
    ensures Parse(BuildPayload(ssid, "", NoPass)) == Some(Network(ssid, "", "nopass"))
  {
    OpenPayload(ssid);
    ReadTypeAndName("nopass", ssid, ";");
    LastSemicolon(map["T" := "nopass", "S" := ssid]);
  }

  lemma ProtectedPayload(ssid: string, password: string)
    ensures var code := BuildPayload(ssid, password, WPA);
            && |code| > 5 && code[..5] == "WIFI:"
            && code[5..] == Group('T', "WPA") + (Group('S', ssid) + (Group('P', password) + ";"))
  {
    PlainEscapesToItself("WPA");
    var last := Group('P', password) + ";";
    assert "WIFI:T:WPA;S:" == "WIFI:" + "T:WPA;" + "S:";
    assert Group('T', "WPA") == "T:WPA;" && Group('S', ssid) == "S:" + EscapeField(ssid) + ";";
    assert ";P:" + EscapeField(password) + ";;" == ";" + last;
    Regroup("WIFI:", "T:WPA;", "S:", EscapeField(ssid), ";", last);
  }

  lemma RoundTripProtected(ssid: string, password: string)
    requires ssid != ""
    ensures Parse(BuildPayload(ssid, password, WPA)) == Some(Network(ssid, password, "WPA"))
  {
    var last := Group('P', password) + ";";
    ProtectedPayload(ssid, password);
    ReadTypeAndName("WPA", ssid, last);
    var named := map["T" := "WPA", "S" := ssid];
    ReadGroup(Scan(named, None, ""), 'P', password, ";");
    LastSemicolon(named["P" := password]);
  }

  /** Wi-Fi round trip: for every non-empty ssid and every password. */
  lemma RoundTrip(ssid: string, password: string, auth: Auth)
    requires ssid != ""
    ensures Parse(BuildPayload(ssid, password, auth)) ==
            Some(if auth == NoPass then Network(ssid, "", "nopass") else Network(ssid, password, "WPA"))
  {
    RoundTripOpen(ssid);
    RoundTripProtected(ssid, password);
    assert BuildPayload(ssid, password, NoPass) == BuildPayload(ssid, "", NoPass);
  }

  /** The printer is injective: two payloads are equal only for the same settings, where an open
      network's password is not a setting. */
  lemma PrinterInjective(s: string, p: string, a: Auth, t: string, q: string, b: Auth)
    requires s != "" && t != "" && BuildPayload(s, p, a) == BuildPayload(t, q, b)
    ensures s == t && a == b && (a == WPA ==> p == q)
  {
    RoundTrip(s, p, a);
    RoundTrip(t, q, b);
    assert "nopass"[0] != "WPA"[0];
  }
}
