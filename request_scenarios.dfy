/**
 * Whole requests through the parser of internal/request: the standard
 * request of request_test.go (a request-line, Host, User-Agent and Accept,
 * then the empty line) is read to Done with the three fields, however the
 * reads cut it, and a repeated name is joined as Headers.Set joins it.
 */
module RequestScenarios {
  import opened Wire
  import opened Headers
  import opened Request
  import opened RequestProofs

  const GetLine: Bytes := "GET / HTTP/1.1"
  const HostName: Bytes := "Host"
  const HostKey: Bytes := "host"
  const HostValue: Bytes := "localhost:42069"
  const AgentName: Bytes := "User-Agent"
  const AgentKey: Bytes := "user-agent"
  const AgentValue: Bytes := "curl/7.81.0"
  const AcceptName: Bytes := "Accept"
  const AcceptKey: Bytes := "accept"
  const AcceptValue: Bytes := "*/*"
  const SecondHostValue: Bytes := "localhost:42070"

  /** The request-line GET / HTTP/1.1. */
  const GetRequestLine := RequestLine("1.1", "/", "GET")

  /** The field lines of a section, in order, before its empty line. */
  function Section(fields: seq<(Bytes, Bytes)>): Bytes {
    if fields == [] then [] else FieldLine(fields[0].0, fields[0].1) + Section(fields[1..])
  }

  /** Headers.Set once per field, in order, under the lower-cased name. */
  function StoreAll(h: Fields, fields: seq<(Bytes, Bytes)>): Fields
    decreases |fields|
  {
    if fields == [] then h else StoreAll(SetField(h, ToLower(fields[0].0), fields[0].1), fields[1..])
  }

  /** A field with a token name and a value without CR and without
      surrounding whitespace: the parser reads its line back unchanged. */
  predicate PlainField(f: (Bytes, Bytes)) {
    IsToken(f.0) && PlainValue(f.1)
  }

  /** A value bytes.TrimSpace leaves as it is, holding no CR. */
  predicate PlainValue(v: Bytes) {
    (forall i :: 0 <= i < |v| ==> v[i] != CR) && (v == [] || (!IsSpace(v[0]) && !IsSpace(v[|v| - 1])))
  }

  /** The fields of the standard request of the tests. */
  function StandardSection(): seq<(Bytes, Bytes)> {
    [(HostName, HostValue), (AgentName, AgentValue), (AcceptName, AcceptValue)]
  }

  /** A request naming Host twice, the second time in lower case. */
  function RepeatedHostSection(): seq<(Bytes, Bytes)> {
    [(HostName, HostValue), (HostKey, SecondHostValue)]
  }

  /** A GET of / with the given fields and no body. */
  function GetRequest(fields: seq<(Bytes, Bytes)>): Bytes {
    GetLine + CRLF + (Section(fields) + CRLF)
  }

  // ---------------------------------------------------------------------
  // One part of a request at a time

  /** The request-line is read and its CRLF consumed. */
  lemma RunGetLine(rest: Bytes)
    ensures Shifted(Run(Initial, GetLine + CRLF + rest),
                    Run(Initial.(line := GetRequestLine, state := ParsingHeaders), rest), |GetLine| + 2)
  {
    var data := GetLine + CRLF + rest;
    var first := GetLine + CRLF;
    assert forall j :: 0 <= j < |GetLine| ==> GetLine[j] != CR;
    assert IsCrlfAt(first, |GetLine|);
    assert FindCrlf(first) == Some(|GetLine|);
    FindCrlfExtend(first, rest);
    assert data == first + rest;
    assert data[..|GetLine|] == GetLine;
    GoodRequestLine();
    hide RequestLineFromString, FindCrlf;
    var next := Initial.(line := GetRequestLine, state := ParsingHeaders);
    assert Step(Initial, data) == Success((next, |GetLine| + 2));
    RunStep(Initial, data, next, |GetLine| + 2);
    assert data[|GetLine| + 2..] == rest;
  }

  /** A field line is stored under its lower-cased name and consumed. */
  lemma RunFieldLine(m: Message, name: Bytes, key: Bytes, value: Bytes, rest: Bytes)
    requires m.state == ParsingHeaders && PlainField((name, value)) && ToLower(name) == key
    ensures Shifted(Run(m, FieldLine(name, value) + rest),
                    Run(m.(headers := SetField(m.headers, key, value)), rest), |FieldLine(name, value)|)
  {
    LowerKeyIsToken(name);
    FieldLineReadBack(m.headers, name, value, rest);
    hide ParseFields, FieldLine, SetField, ToLower, CheckHeaderKey;
    var data := FieldLine(name, value) + rest;
    var next := m.(headers := SetField(m.headers, key, value));
    assert Step(m, data) == Success((next, |FieldLine(name, value)|));
    RunStep(m, data, next, |FieldLine(name, value)|);
    assert data[|FieldLine(name, value)|..] == rest;
  }

  /** The empty line ends the field section; without Content-Length the
      request is then Done with an empty body. */
  lemma RunEnd(m: Message)
    requires m.state == ParsingHeaders && m.body == [] && ContentLengthKey !in m.headers
    ensures Run(m, CRLF) == Success((m.(state := Done), 2))
  {
    assert FindCrlf(CRLF) == Some(0);
    var body := m.(state := ParsingBody);
    assert Step(m, CRLF) == Success((body, 2));
    RunStep(m, CRLF, body, 2);
    assert CRLF[2..] == [];
    assert Step(body, []) == Success((m.(state := Done), 0));
    RunStalls(body, [], m.(state := Done));
  }

  /** Runs over a whole field section: without Content-Length among the
      fields, the request is Done with every field stored in order and the
      section and its empty line consumed. */
  lemma {:induction false} SectionRuns(m: Message, fields: seq<(Bytes, Bytes)>)
    requires m.state == ParsingHeaders && m.body == []
    requires forall i :: 0 <= i < |fields| ==> PlainField(fields[i])
    requires ContentLengthKey !in StoreAll(m.headers, fields)
    ensures Run(m, Section(fields) + CRLF) ==
      Success((m.(headers := StoreAll(m.headers, fields), state := Done), |Section(fields)| + 2))
    decreases |fields|
  {
    hide Run, Step;
    if fields == [] {
      assert Section(fields) + CRLF == CRLF;
      assert StoreAll(m.headers, fields) == m.headers;
      RunEnd(m);
      assert m.(headers := m.headers, state := Done) == m.(state := Done);
    } else {
      hide StoreAll, Section, FieldLine, SetField, ToLower, PlainField, Shifted;
      var f, tail := fields[0], fields[1..];
      var next := m.(headers := SetField(m.headers, ToLower(f.0), f.1));
      SectionStep(m, fields);
      var done := m.(headers := StoreAll(m.headers, fields), state := Done);
      assert next.(headers := StoreAll(next.headers, tail), state := Done) == done;
      SectionRuns(next, tail);
      ShiftedSuccess(Run(m, Section(fields) + CRLF), Run(next, Section(tail) + CRLF),
                     |FieldLine(f.0, f.1)|, done, |Section(tail)| + 2);
    }
  }

  /** The first field line of a section: stored, and the run goes on over
      the rest of the section. */
  lemma SectionStep(m: Message, fields: seq<(Bytes, Bytes)>)
    requires m.state == ParsingHeaders && fields != []
    requires forall i :: 0 <= i < |fields| ==> PlainField(fields[i])
    ensures var next := m.(headers := SetField(m.headers, ToLower(fields[0].0), fields[0].1));
      Shifted(Run(m, Section(fields) + CRLF), Run(next, Section(fields[1..]) + CRLF), |FieldLine(fields[0].0, fields[0].1)|)
    ensures forall i :: 0 <= i < |fields[1..]| ==> PlainField(fields[1..][i])
    ensures StoreAll(m.headers, fields) ==
      StoreAll(SetField(m.headers, ToLower(fields[0].0), fields[0].1), fields[1..])
    ensures |Section(fields)| == |FieldLine(fields[0].0, fields[0].1)| + |Section(fields[1..])|
  {
    hide Run, Step, StoreAll, Section, FieldLine, SetField, ToLower, PlainField, Shifted;
    SectionCons(m, fields);
    var f := fields[0];
    RunFieldLine(m, f.0, ToLower(f.0), f.1, Section(fields[1..]) + CRLF);
  }

  /** A result shifted from a success is that success, further along. */
  lemma ShiftedSuccess(outer: Result<(Message, nat), RequestError>, inner: Result<(Message, nat), RequestError>,
                       k: nat, done: Message, n: nat)
    requires Shifted(outer, inner, k) && inner == Success((done, n))
    ensures outer == Success((done, k + n))
  {
  }

  /** A section with a first field: that field, then the rest. */
  lemma SectionCons(m: Message, fields: seq<(Bytes, Bytes)>)
    requires fields != [] && forall i :: 0 <= i < |fields| ==> PlainField(fields[i])
    ensures PlainField(fields[0]) && forall i :: 0 <= i < |fields[1..]| ==> PlainField(fields[1..][i])
    ensures StoreAll(m.headers, fields) ==
      StoreAll(SetField(m.headers, ToLower(fields[0].0), fields[0].1), fields[1..])
    ensures Section(fields) + CRLF == FieldLine(fields[0].0, fields[0].1) + (Section(fields[1..]) + CRLF)
    ensures |Section(fields)| == |FieldLine(fields[0].0, fields[0].1)| + |Section(fields[1..])|
  {
    hide FieldLine, SetField, ToLower, PlainField;
    PlainTail(fields);
    var line, tail := FieldLine(fields[0].0, fields[0].1), Section(fields[1..]);
    assert Section(fields) == line + tail;
    assert (line + tail) + CRLF == line + (tail + CRLF);
  }

  lemma PlainTail(fields: seq<(Bytes, Bytes)>)
    requires fields != [] && forall i :: 0 <= i < |fields| ==> PlainField(fields[i])
    ensures forall i :: 0 <= i < |fields[1..]| ==> PlainField(fields[1..][i])
  {
    hide PlainField;
    var tail := fields[1..];
    forall i | 0 <= i < |tail| ensures PlainField(tail[i]) {
      assert tail[i] == fields[i + 1];
    }
  }

  /** A GET of / followed by a field section is read to Done. */
  lemma GetRequestRuns(fields: seq<(Bytes, Bytes)>)
    requires forall i :: 0 <= i < |fields| ==> PlainField(fields[i])
    requires ContentLengthKey !in StoreAll(map[], fields)
    ensures Run(Initial, GetRequest(fields)) ==
      Success((Message(GetRequestLine, Done, StoreAll(map[], fields), []), |GetRequest(fields)|))
  {
    hide Run, Step, StoreAll, Section, FieldLine, Shifted;
    var m1 := Initial.(line := GetRequestLine, state := ParsingHeaders);
    var done := Message(GetRequestLine, Done, StoreAll(map[], fields), []);
    assert m1.(headers := StoreAll(m1.headers, fields), state := Done) == done;
    SectionRuns(m1, fields);
    RunGetLine(Section(fields) + CRLF);
    ShiftedSuccess(Run(Initial, GetRequest(fields)), Run(m1, Section(fields) + CRLF), |GetLine| + 2,
                   done, |Section(fields)| + 2);
  }

  lemma HostLowers()
    ensures IsToken(HostName) && ToLower(HostName) == HostKey
  {
    LowerCaseOf(HostName, HostKey);
  }

  lemma HostKeyLowers()
    ensures IsToken(HostKey) && ToLower(HostKey) == HostKey
  {
    LowerCaseOf(HostKey, HostKey);
  }

  lemma AgentLowers()
    ensures IsToken(AgentName) && ToLower(AgentName) == AgentKey
  {
    hide ToLower, IsToken;
    var name, key := AgentName, AgentKey;
    assert name[0] == 'U' && name[5] == 'A';
    forall i | 0 <= i < |name| ensures LowerByte(name[i]) == key[i] {
      if i != 0 && i != 5 {
        assert LowerByte(name[i]) == name[i];
      }
    }
    LowerCaseOf(name, key);
    AgentToken();
  }

  lemma AgentToken()
    ensures IsToken(AgentName)
  {
  }

  lemma AcceptLowers()
    ensures IsToken(AcceptName) && ToLower(AcceptName) == AcceptKey
  {
    LowerCaseOf(AcceptName, AcceptKey);
  }

  /** The keys differ from one another and from content-length. */
  lemma KeysDistinct()
    ensures HostKey != AgentKey && HostKey != AcceptKey && AgentKey != AcceptKey
    ensures ContentLengthKey !in {HostKey, AgentKey, AcceptKey}
  {
    assert |HostKey| == 4 && |AgentKey| == 10 && |AcceptKey| == 6 && |ContentLengthKey| == 14;
  }

  lemma ValuesPlain()
    ensures PlainValue(HostValue) && PlainValue(AgentValue) && PlainValue(AcceptValue)
    ensures PlainValue(SecondHostValue)
  {
  }

  // ---------------------------------------------------------------------
  // Whole requests

  /** The fields the standard request carries. */
  function StandardFields(): Fields {
    map[HostKey := HostValue, AgentKey := AgentValue, AcceptKey := AcceptValue]
  }

  lemma StandardSectionPlain()
    ensures forall i :: 0 <= i < |StandardSection()| ==> PlainField(StandardSection()[i])
  {
    HostLowers();
    AgentLowers();
    AcceptLowers();
    ValuesPlain();
    hide IsToken, ToLower, PlainValue;
    var fs := StandardSection();
    assert fs[0] == (HostName, HostValue) && fs[1] == (AgentName, AgentValue) && fs[2] == (AcceptName, AcceptValue);
  }

  lemma StandardSectionStored()
    ensures StoreAll(map[], StandardSection()) == StandardFields()
    ensures ContentLengthKey !in StandardFields()
  {
    HostLowers();
    AgentLowers();
    AcceptLowers();
    KeysDistinct();
    hide ToLower, IsToken;
    var fs := StandardSection();
    var h1 := SetField(map[], HostKey, HostValue);
    assert h1 == map[HostKey := HostValue];
    var h2 := SetField(h1, AgentKey, AgentValue);
    assert h2 == map[HostKey := HostValue, AgentKey := AgentValue];
    assert StoreAll(map[], fs) == StoreAll(h1, fs[1..]);
    assert StoreAll(h1, fs[1..]) == StoreAll(h2, fs[2..]);
  }

  /** The standard request is the text request_test.go sends. */
  lemma StandardRequestText()
    ensures GetRequest(StandardSection()) ==
      "GET / HTTP/1.1\r\n" + "Host: localhost:42069\r\n" + "User-Agent: curl/7.81.0\r\n" + "Accept: */*\r\n" + "\r\n"
  {
    var fs := StandardSection();
    assert Section(fs) == FieldLine(HostName, HostValue) + Section(fs[1..]);
    assert Section(fs[1..]) == FieldLine(AgentName, AgentValue) + Section(fs[2..]);
    assert Section(fs[2..]) == FieldLine(AcceptName, AcceptValue) + Section(fs[3..]);
    assert fs[3..] == [];
    GetLineText();
    HostLineText();
    AgentLineText();
    AcceptLineText();
    hide Section, FieldLine, StandardSection;
    var l0: Bytes, l1: Bytes, l2: Bytes, l3: Bytes, l4: Bytes :=
      "GET / HTTP/1.1\r\n", "Host: localhost:42069\r\n", "User-Agent: curl/7.81.0\r\n", "Accept: */*\r\n", "\r\n";
    assert GetRequest(fs) == l0 + (l1 + (l2 + (l3 + l4)));
    Associate(l0, l1, l2, l3, l4);
  }

  lemma GetLineText()
    ensures GetLine + CRLF == "GET / HTTP/1.1\r\n"
  {
  }

  lemma HostLineText()
    ensures FieldLine(HostName, HostValue) == "Host: localhost:42069\r\n"
  {
  }

  lemma AgentLineText()
    ensures FieldLine(AgentName, AgentValue) == "User-Agent: curl/7.81.0\r\n"
  {
  }

  lemma AcceptLineText()
    ensures FieldLine(AcceptName, AcceptValue) == "Accept: */*\r\n"
  {
  }

  lemma Associate(a: Bytes, b: Bytes, c: Bytes, d: Bytes, e: Bytes)
    ensures a + (b + (c + (d + e))) == a + b + c + d + e
  {
  }

  /** Run reads the whole standard request of the tests to Done: the
      request-line GET / HTTP/1.1, the three fields under lower-case keys,
      no body, every byte consumed. */
  lemma StandardRequestRuns()
    ensures Run(Initial, GetRequest(StandardSection())) ==
      Success((Message(GetRequestLine, Done, StandardFields(), []), |GetRequest(StandardSection())|))
  {
    StandardSectionPlain();
    StandardSectionStored();
    GetRequestRuns(StandardSection());
  }

  /** The reads of RequestFromReader may cut the standard request anywhere,
      three bytes at a time or otherwise: the outcome is the same request. */
  lemma StandardRequestAnySplit(pieces: seq<Bytes>)
    requires Concat(pieces) == GetRequest(StandardSection())
    ensures Feed(pieces) == Success(Message(GetRequestLine, Done, StandardFields(), []))
  {
    var s := GetRequest(StandardSection());
    var m := Message(GetRequestLine, Done, StandardFields(), []);
    StandardRequestRuns();
    assert [] + s == s;
    assert s[|s|..] == [];
    hide Run, GetRequest, StandardSection;
    assert Absorb(Initial, [], [s]) == Success((m, []));
    assert Feed([s]) == Success(m);
    ReadSplitInvariance(pieces);
  }

  /** The one field the repeated-Host request leaves. */
  function JoinedHostFields(): Fields {
    map[HostKey := HostValue + ", " + SecondHostValue]
  }

  lemma RepeatedHostStored()
    ensures forall i :: 0 <= i < |RepeatedHostSection()| ==> PlainField(RepeatedHostSection()[i])
    ensures StoreAll(map[], RepeatedHostSection()) == JoinedHostFields()
    ensures ContentLengthKey !in JoinedHostFields()
  {
    HostLowers();
    HostKeyLowers();
    ValuesPlain();
    KeysDistinct();
    hide ToLower, IsToken, PlainValue;
    var fs := RepeatedHostSection();
    assert fs[0] == (HostName, HostValue) && fs[1] == (HostKey, SecondHostValue);
    var h1 := SetField(map[], HostKey, HostValue);
    assert h1 == map[HostKey := HostValue];
    assert StoreAll(map[], fs) == StoreAll(h1, fs[1..]);
    assert StoreAll(h1, fs[1..]) == SetField(h1, HostKey, SecondHostValue);
  }

  /** A name given twice, in two cases, is stored once under its lower-case
      key with the two values joined by ", ". */
  lemma RepeatedHostJoined()
    ensures Run(Initial, GetRequest(RepeatedHostSection())) ==
      Success((Message(GetRequestLine, Done, JoinedHostFields(), []), |GetRequest(RepeatedHostSection())|))
  {
    RepeatedHostStored();
    GetRequestRuns(RepeatedHostSection());
  }
}
