/**
 * Properties of the request parser of internal/request/request.go that
 * relate several calls: the request-line reading and its inverse, and the
 * independence of the outcome from how the reads of RequestFromReader cut
 * the stream.
 */
module RequestProofs {
  import opened Wire
  import opened Headers
  import opened Request

  // ---------------------------------------------------------------------
  // requestLineFromString

  /** Every request-line that is accepted is the text of the line it
      yields: an upper-case method, a target without spaces and version 1.1,
      joined by single spaces. */
  lemma RequestLineParsed(str: Bytes)
    ensures RequestLineFromString(str).Success? ==>
      AcceptableLine(RequestLineFromString(str).value) &&
      FormatRequestLine(RequestLineFromString(str).value) == str
  {
    hide Split;
    var parts := Split(str, ' ');
    if RequestLineFromString(str).Success? {
      var l := RequestLineFromString(str).value;
      var versionParts := Split(parts[2], '/');
      assert |parts| == 3 && versionParts == ["HTTP", "1.1"];
      assert l == RequestLine("1.1", parts[1], parts[0]);
      JoinTwo(versionParts, '/');
      JoinThree(parts, ' ');
      FormatParts(l);
    }
  }

  /** ... and every such line is accepted, giving back its parts. */
  lemma RequestLineFormatted(l: RequestLine)
    requires AcceptableLine(l)
    ensures RequestLineFromString(FormatRequestLine(l)) == Success(l)
  {
    hide Split;
    var version: Bytes := "HTTP/1.1";
    assert version == "HTTP" + ['/'] + "1.1";
    var parts := [l.requestMethod, l.requestTarget, version];
    assert ' ' !in l.requestMethod;
    assert forall i :: 0 <= i < |parts| ==> ' ' !in parts[i];
    JoinThree(parts, ' ');
    FormatParts(l);
    SplitJoin(parts, ' ');
    var versionParts: seq<Bytes> := ["HTTP", "1.1"];
    JoinTwo(versionParts, '/');
    SplitJoin(versionParts, '/');
  }

  lemma JoinTwo(parts: seq<Bytes>, sep: Byte)
    requires |parts| == 2
    ensures Join(parts, sep) == parts[0] + [sep] + parts[1]
  {
    assert Join(parts[1..], sep) == parts[1];
  }

  lemma JoinThree(parts: seq<Bytes>, sep: Byte)
    requires |parts| == 3
    ensures Join(parts, sep) == parts[0] + [sep] + (parts[1] + [sep] + parts[2])
  {
    JoinTwo(parts[1..], sep);
  }

  /** The request-line text, cut at its two spaces. */
  lemma FormatParts(l: RequestLine)
    requires l.httpVersion == "1.1"
    ensures FormatRequestLine(l) == l.requestMethod + [' '] + (l.requestTarget + [' '] + ("HTTP" + ['/'] + "1.1"))
  {
    assert " HTTP/" + "1.1" == [' '] + ("HTTP" + ['/'] + "1.1");
  }

  /** requestLineFromString accepts exactly the formatted acceptable lines. */
  lemma RequestLineAccepted(str: Bytes)
    ensures RequestLineFromString(str).Success? <==>
      exists l :: AcceptableLine(l) && FormatRequestLine(l) == str
  {
    RequestLineParsed(str);
    if l :| AcceptableLine(l) && FormatRequestLine(l) == str {
      RequestLineFormatted(l);
    }
  }

  /** The request-line of the tests: `GET / HTTP/1.1`. */
  lemma GoodRequestLine()
    ensures RequestLineFromString("GET / HTTP/1.1") == Success(RequestLine("1.1", "/", "GET"))
  {
    var l := RequestLine("1.1", "/", "GET");
    assert FormatRequestLine(l) == "GET / HTTP/1.1";
    RequestLineFormatted(l);
  }

  // ---------------------------------------------------------------------
  // Steps over more data

  /** A step that consumes nothing and does not finish changes nothing. */
  lemma StepZero(r: Message, data: Bytes, next: Message)
    requires r.state != Done && Step(r, data) == Success((next, 0)) && next.state != Done
    ensures next == r
  {
  }

  /** Before the body, a step that fails or consumes something has found
      its CRLF, so bytes after it change nothing. */
  lemma StepExtend(r: Message, a: Bytes, b: Bytes)
    requires r.state == Initialized || r.state == ParsingHeaders
    requires Step(r, a).Failure? || Step(r, a).value.1 > 0
    ensures Step(r, a + b) == Step(r, a)
  {
    if r.state == Initialized {
      assert FindCrlf(a).Some?;
      FindCrlfExtend(a, b);
      assert (a + b)[..FindCrlf(a).value] == a[..FindCrlf(a).value];
    } else {
      ParseFieldsFirstLineOnly(r.headers, a, b);
    }
  }

  /** A run that succeeds without finishing began with a successful step. */
  lemma RunUnfinished(r: Message, data: Bytes)
    requires Run(r, data).Success? && Run(r, data).value.0.state != Done
    ensures r.state != Done && Step(r, data).Success?
  {
  }

  /** After a run that does not finish, running again on what it left
      consumes nothing. */
  lemma {:induction false} RunRestStalls(r: Message, data: Bytes)
    requires Run(r, data).Success? && Run(r, data).value.0.state != Done
    ensures Run(Run(r, data).value.0, data[Run(r, data).value.1..]) == Success((Run(r, data).value.0, 0))
    decreases |data|
  {
    hide Step, Run;
    RunUnfinished(r, data);
    var step := Step(r, data);
    var next := step.value.0;
    var k := step.value.1;
    if k == 0 {
      RunStalls(r, data, next);
      StepZero(r, data, next);
    } else {
      RunStep(r, data, next, k);
      RunRestStalls(next, data[k..]);
      var j := Run(next, data[k..]).value.1;
      assert data[k..][j..] == data[k + j..];
    }
  }

  /** How a run over `a + b` goes on from the run over `a`: the same error;
      when the run over `a` finished, the same request, or BodyTooLarge when
      `b` runs past the end of the body; otherwise the run from where the
      run over `a` stopped, over what it left and `b`. */
  ghost predicate Continues(whole: Result<(Message, nat), RequestError>, part: Result<(Message, nat), RequestError>,
                            a: Bytes, b: Bytes)
  {
    if part.Failure? then whole == part
    else if part.value.0.state == Done then whole == part || (b != [] && whole == Failure(BodyTooLarge))
    else part.value.1 <= |a| && Shifted(whole, Run(part.value.0, a[part.value.1..] + b), part.value.1)
  }

  /** A finished request consumes nothing more. */
  lemma RunFinished(r: Message, data: Bytes)
    requires r.state == Done
    ensures Run(r, data) == Success((r, 0))
  {
  }

  /** Shifted results continue alike. */
  lemma ShiftedTwice(x: Result<(Message, nat), RequestError>, y: Result<(Message, nat), RequestError>,
                     z: Result<(Message, nat), RequestError>, m: nat, n: nat)
    requires Shifted(x, y, m) && Shifted(y, z, n)
    ensures Shifted(x, z, m + n)
  {
  }

  /** A step over the body: the declared length decides everything. */
  lemma StepBody(r: Message, data: Bytes)
    requires r.state == ParsingBody
    ensures ContentLength(r.headers) == [] ==> Step(r, data) == Success((r.(state := Done), 0))
    ensures ContentLength(r.headers) != [] && Atoi(ContentLength(r.headers)).None? ==>
      Step(r, data) == Failure(InvalidContentLength)
    ensures ContentLength(r.headers) != [] && Atoi(ContentLength(r.headers)).Some? ==>
      var n := Atoi(ContentLength(r.headers)).value;
      var body := r.body + data;
      Step(r, data) == if |body| > n then Failure(BodyTooLarge)
                       else Success((r.(body := body, state := if n == |body| then Done else ParsingBody), |data|))
  {
  }

  /** A whole run from the body state is one step: without Content-Length it
      finishes at once; an unreadable length fails; otherwise the bytes join
      the body, which may not pass the declared length, and the request is
      Done exactly when the body reaches it. */
  lemma RunBody(r: Message, data: Bytes)
    requires r.state == ParsingBody
    ensures ContentLength(r.headers) == [] ==> Run(r, data) == Success((r.(state := Done), 0))
    ensures ContentLength(r.headers) != [] && Atoi(ContentLength(r.headers)).None? ==>
      Run(r, data) == Failure(InvalidContentLength)
    ensures ContentLength(r.headers) != [] && Atoi(ContentLength(r.headers)).Some? ==>
      var n := Atoi(ContentLength(r.headers)).value;
      var body := r.body + data;
      Run(r, data) == if |body| > n then Failure(BodyTooLarge)
                      else Success((r.(body := body, state := if n == |body| then Done else ParsingBody), |data|))
  {
    hide Step, Run;
    StepBody(r, data);
    var step := Step(r, data);
    if step.Failure? {
      RunFails(r, data);
    } else if step.value.1 == 0 {
      RunStalls(r, data, step.value.0);
    } else {
      var next := step.value.0;
      RunStep(r, data, next, |data|);
      assert data[|data|..] == [];
      if next.state == Done {
        RunFinished(next, []);
      } else {
        StepBody(next, []);
        assert next.body + [] == next.body;
        RunStalls(next, [], next);
      }
    }
  }

  /** RunAppend for a request reading its body. */
  lemma RunAppendBody(r: Message, a: Bytes, b: Bytes)
    requires r.state == ParsingBody
    ensures Continues(Run(r, a + b), Run(r, a), a, b)
  {
    hide Step, Run;
    StepBody(r, a);
    StepBody(r, a + b);
    var cl := ContentLength(r.headers);
    if cl == [] {
      RunStalls(r, a, r.(state := Done));
      RunStalls(r, a + b, r.(state := Done));
    } else if Atoi(cl).None? || |r.body + a| > Atoi(cl).value {
      RunFails(r, a);
      RunFails(r, a + b);
    } else if a == [] {
      BodyFromNothing(r, b);
    } else if |r.body + a| == Atoi(cl).value {
      BodyCompleted(r, a, b);
    } else {
      BodyIncomplete(r, a, b);
    }
  }

  /** The body so far is all there is to read: more bytes either finish it,
      overrun it, or leave it unfinished. */
  lemma BodyFromNothing(r: Message, b: Bytes)
    requires r.state == ParsingBody && ContentLength(r.headers) != []
    requires Atoi(ContentLength(r.headers)).Some? && |r.body| <= Atoi(ContentLength(r.headers)).value
    ensures Continues(Run(r, [] + b), Run(r, []), [], b)
  {
    hide Step, Run;
    StepBody(r, []);
    assert r.body + [] == r.body;
    var next := Step(r, []).value.0;
    RunStalls(r, [], next);
    assert [] + b == b;
    if next.state != Done {
      assert next == r;
    } else if b != [] {
      StepBody(r, b);
      RunFails(r, b);
    }
  }

  /** A piece that completes the body: Done, and any byte more overruns it. */
  lemma BodyCompleted(r: Message, a: Bytes, b: Bytes)
    requires r.state == ParsingBody && ContentLength(r.headers) != [] && a != []
    requires Atoi(ContentLength(r.headers)) == Some(|r.body + a|)
    ensures Run(r, a) == Success((r.(body := r.body + a, state := Done), |a|))
    ensures b != [] ==> Run(r, a + b) == Failure(BodyTooLarge)
    ensures Continues(Run(r, a + b), Run(r, a), a, b)
  {
    hide Step, Run;
    RunBody(r, a);
    if b == [] {
      assert a + b == a;
    } else {
      RunBody(r, a + b);
    }
  }

  /** A piece that leaves the body short: the next piece carries on. */
  lemma BodyIncomplete(r: Message, a: Bytes, b: Bytes)
    requires r.state == ParsingBody && ContentLength(r.headers) != [] && a != []
    requires Atoi(ContentLength(r.headers)).Some? && |r.body + a| < Atoi(ContentLength(r.headers)).value
    ensures Continues(Run(r, a + b), Run(r, a), a, b)
  {
    hide Step, Run;
    var n := Atoi(ContentLength(r.headers)).value;
    StepBody(r, a);
    var next := Step(r, a).value.0;
    assert next.headers == r.headers && next.body == r.body + a && next.state == ParsingBody;
    RunStep(r, a, next, |a|);
    assert a[|a|..] == [];
    StepBody(next, []);
    assert next.body + [] == next.body;
    RunStalls(next, [], next);
    assert a[|a|..] + b == b;
    assert next.body + b == r.body + (a + b);
    StepBody(r, a + b);
    StepBody(next, b);
    if |next.body + b| > n {
      RunFails(r, a + b);
      RunFails(next, b);
    } else if b == [] {
      assert a + b == a;
    } else {
      var whole := Step(r, a + b).value.0;
      assert whole == Step(next, b).value.0;
      RunStep(r, a + b, whole, |a + b|);
      RunStep(next, b, whole, |b|);
      assert (a + b)[|a + b|..] == b[|b|..];
    }
  }

  /** The run over `a + b` continues the run over `a`. */
  lemma {:induction false} RunAppend(r: Message, a: Bytes, b: Bytes)
    ensures Continues(Run(r, a + b), Run(r, a), a, b)
    decreases |a|
  {
    hide Step, Run;
    if r.state == Done {
      RunFinished(r, a);
      RunFinished(r, a + b);
    } else if r.state == ParsingBody {
      RunAppendBody(r, a, b);
    } else {
      var step := Step(r, a);
      if step.Failure? {
        StepExtend(r, a, b);
        RunFails(r, a);
        RunFails(r, a + b);
      } else if step.value.1 == 0 {
        var next := step.value.0;
        RunStalls(r, a, next);
        if next.state == Done {
          // a step of the request-line or of the headers never finishes
          assert false;
        }
        StepZero(r, a, next);
        assert a[0..] + b == a + b;
      } else {
        var next := step.value.0;
        var k := step.value.1;
        StepExtend(r, a, b);
        RunStep(r, a, next, k);
        RunStep(r, a + b, next, k);
        assert (a + b)[k..] == a[k..] + b;
        RunAppend(next, a[k..], b);
        var part := Run(next, a[k..]);
        if part.Success? && part.value.0.state != Done {
          var j := part.value.1;
          assert a[k..][j..] == a[k + j..];
          ShiftedTwice(Run(r, a + b), Run(next, a[k..] + b), Run(part.value.0, a[k + j..] + b), k, j);
        }
      }
    }
  }

  // ---------------------------------------------------------------------
  // Independence from how the reads cut the stream

  /** What the reads absorbed agrees with one run over all of it: the same
      error, the same finished request (or BodyTooLarge, when the one run
      also sees bytes past the body that the reads never took), or the same
      unfinished request. */
  ghost predicate Agrees(absorbed: Result<(Message, Bytes), RequestError>, run: Result<(Message, nat), RequestError>) {
    if absorbed.Failure? then run == Failure(absorbed.error)
    else if absorbed.value.0.state == Done then
      (run.Success? && run.value.0 == absorbed.value.0) || run == Failure(BodyTooLarge)
    else run.Success? && run.value.0 == absorbed.value.0
  }

  lemma {:induction false} AbsorbAgrees(r: Message, pending: Bytes, pieces: seq<Bytes>)
    requires Run(r, pending) == Success((r, 0))
    ensures Agrees(Absorb(r, pending, pieces), Run(r, pending + Concat(pieces)))
    decreases |pieces|
  {
    hide Run;
    if r.state == Done {
      RunFinished(r, pending + Concat(pieces));
    } else if pieces == [] {
      assert pending + Concat(pieces) == pending;
    } else {
      var data := pending + pieces[0];
      var rest := Concat(pieces[1..]);
      assert Concat(pieces) == pieces[0] + rest;
      assert pending + Concat(pieces) == data + rest;
      RunAppend(r, data, rest);
      var run := Run(r, data);
      if run.Success? && run.value.0.state != Done {
        RunRestStalls(r, data);
        AbsorbAgrees(run.value.0, data[run.value.1..], pieces[1..]);
      }
    }
  }

  /** Reading the stream in any pieces gives what one read of all of it
      gives, except that when the pieces end a request exactly at the end
      of its body, one read of more bytes finds the body too large. */
  lemma ReadSplitInvariance(pieces: seq<Bytes>)
    ensures Feed(pieces).Failure? ==> Feed([Concat(pieces)]) == Feed(pieces)
    ensures Feed(pieces).Success? ==>
      Feed([Concat(pieces)]) == Feed(pieces) || Feed([Concat(pieces)]) == Failure(BodyTooLarge)
  {
    assert Run(Initial, []) == Success((Initial, 0));
    AbsorbAgrees(Initial, [], pieces);
    var s := Concat(pieces);
    AbsorbAgrees(Initial, [], [s]);
    assert Concat([s]) == s;
  }

  // ---------------------------------------------------------------------
  // The body and its declared length

  /** The body is read only after the field section; without Content-Length
      it stays empty; while it is read it never passes the declared length
      (a negative length, which Atoi accepts, leaves it empty);
      and a finished request with a Content-Length has exactly that many
      body bytes. */
  predicate Framed(m: Message) {
    var cl := ContentLength(m.headers);
    (Rank(m.state) < 2 ==> m.body == []) &&
    (cl == [] ==> m.body == []) &&
    (m.state == ParsingBody && cl != [] && Atoi(cl).Some? ==> m.body == [] || |m.body| <= Atoi(cl).value) &&
    (m.state == Done && cl != [] ==> Atoi(cl) == Some(|m.body|))
  }

  /** Every step keeps the body framed. */
  lemma StepFramed(r: Message, data: Bytes)
    requires Framed(r)
    ensures Step(r, data).Success? ==> Framed(Step(r, data).value.0)
  {
    if r.state == ParsingBody {
      StepBody(r, data);
    }
  }

  /** So does every run. */
  lemma {:induction false} RunFramed(r: Message, data: Bytes)
    requires Framed(r)
    ensures Run(r, data).Success? ==> Framed(Run(r, data).value.0)
    decreases |data|
  {
    if r.state != Done {
      var step := Step(r, data);
      if step.Success? {
        StepFramed(r, data);
        if step.value.1 == 0 {
          RunStalls(r, data, step.value.0);
        } else {
          RunStep(r, data, step.value.0, step.value.1);
          RunFramed(step.value.0, data[step.value.1..]);
        }
      }
    }
  }

  /** And every sequence of reads. */
  lemma {:induction false} AbsorbFramed(r: Message, pending: Bytes, pieces: seq<Bytes>)
    requires Framed(r)
    ensures Absorb(r, pending, pieces).Success? ==> Framed(Absorb(r, pending, pieces).value.0)
    decreases |pieces|
  {
    if r.state != Done && pieces != [] {
      var data := pending + pieces[0];
      RunFramed(r, data);
      var run := Run(r, data);
      if run.Success? {
        AbsorbFramed(run.value.0, data[run.value.1..], pieces[1..]);
      }
    }
  }

  /** A request read from a stream has no body unless it declares a
      Content-Length, and then the body has exactly the declared length. */
  lemma FeedFramed(pieces: seq<Bytes>)
    ensures Feed(pieces).Success? && ContentLength(Feed(pieces).value.headers) == [] ==>
      Feed(pieces).value.body == []
    ensures Feed(pieces).Success? && ContentLength(Feed(pieces).value.headers) != [] ==>
      Atoi(ContentLength(Feed(pieces).value.headers)) == Some(|Feed(pieces).value.body|)
  {
    AbsorbFramed(Initial, [], pieces);
  }
}
