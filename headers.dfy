/**
 * The header collection of internal/headers: a map from lower-cased field
 * names to values, the merge rule for repeated names, the field-name check
 * against the token characters of section 5.6.2 of RFC 9110, and the parser
 * that consumes one CRLF-terminated `name: value` line from the front of a
 * buffer.
 */
module Headers {
  import opened Wire

  /** Go's `Headers map[string]string`. */
  type Fields = map<Bytes, Bytes>

  datatype HeaderError =
    | InvalidSpacing   // "Invalid spacing": white space right before the colon
    | InvalidKey       // "Invalid header key": the name is not a token
    | MissingColon     // a line with a valid name and no colon (see LineAsWritten)

  /** What one call of Parse reports besides an error: the new map, the bytes
      consumed and whether the header section has ended. */
  datatype Parsed = Parsed(fields: Fields, n: nat, done: bool)

  // ---------------------------------------------------------------------
  // Set

  /** Headers.Set: a new name is inserted, a repeated one has the new value
      appended after ", ". The key is stored as given. */
  function SetField(h: Fields, key: Bytes, value: Bytes): (r: Fields)
    ensures r.Keys == h.Keys + {key}
    ensures key in h ==> r[key] == h[key] + ", " + value
    ensures key !in h ==> r[key] == value
    ensures forall k :: k in h && k != key ==> r[k] == h[k]
  {
    if key in h then h[key := h[key] + ", " + value] else h[key := value]
  }

  /** The values of a repeated field, in order of arrival, joined by ", ". */
  function JoinValues(vs: seq<Bytes>): Bytes
    requires |vs| > 0
  {
    if |vs| == 1 then vs[0] else JoinValues(vs[..|vs| - 1]) + ", " + vs[|vs| - 1]
  }

  /** Set called once per value, in order. */
  function SetEach(h: Fields, key: Bytes, vs: seq<Bytes>): Fields {
    if vs == [] then h else SetField(SetEach(h, key, vs[..|vs| - 1]), key, vs[|vs| - 1])
  }

  /** The merge law: setting a fresh name to a, b, c, ... stores "a, b, c, ..."
      and leaves every other entry as it was. */
  lemma {:induction false} MergeLaw(h: Fields, key: Bytes, vs: seq<Bytes>)
    requires key !in h && |vs| > 0
    ensures SetEach(h, key, vs).Keys == h.Keys + {key}
    ensures SetEach(h, key, vs)[key] == JoinValues(vs)
    ensures forall k :: k in h ==> SetEach(h, key, vs)[k] == h[k]
  {
    if |vs| > 1 {
      MergeLaw(h, key, vs[..|vs| - 1]);
    }
  }

  // ---------------------------------------------------------------------
  // checkHeaderKey

  /** tchar of section 5.6.2 of RFC 9110. */
  predicate IsTchar(c: Byte) {
    || c == '!' || c == '#' || c == '$' || c == '%' || c == '&' || c == '\'' || c == '*'
    || c == '+' || c == '-' || c == '.' || c == '^' || c == '_' || c == '`' || c == '|' || c == '~'
    || IsDigit(c) || 'a' <= c <= 'z' || 'A' <= c <= 'Z'
  }

  /** token = 1*tchar */
  predicate IsToken(s: Bytes) {
    |s| > 0 && forall i :: 0 <= i < |s| ==> IsTchar(s[i])
  }

  /** The fifteen punctuation bytes checkHeaderKey admits. */
  const SpecialChars: set<Byte> :=
    {'!', '#', '$', '%', '&', '\'', '*', '+', '-', '.', '^', '_', '`', '|', '~'}

  /** checkHeaderKey: every byte is a lower-case letter, a digit or one of
      SpecialChars, and there is at least one. This is exactly a token with no
      upper-case letter. */
  function CheckHeaderKey(key: Bytes): (ok: bool)
    ensures ok <==> IsToken(key) && forall i :: 0 <= i < |key| ==> !('A' <= key[i] <= 'Z')
  {
    |key| > 0 &&
    forall i :: 0 <= i < |key| ==>
      !((key[i] < 'a' || key[i] > 'z') && (key[i] < '0' || key[i] > '9')) || key[i] in SpecialChars
  }

  /** A name passes the check after lower-casing exactly when it is a token. */
  lemma LowerKeyIsToken(name: Bytes)
    ensures CheckHeaderKey(ToLower(name)) <==> IsToken(name)
  {
    var k := ToLower(name);
    assert forall i :: 0 <= i < |name| ==> (IsTchar(k[i]) <==> IsTchar(name[i]));
  }

  // ---------------------------------------------------------------------
  // Parse

  /** What headers.go:40-51 make of one line (without its CRLF), as written:
      the name is the text before the first colon, the value the text after
      it. When there is no colon and the name is otherwise valid, the code
      reads parts[1] of a one-element slice and panics. */
  datatype LineVerdict = Field(key: Bytes, value: Bytes) | Rejected(error: HeaderError) | IndexPanic

  function LineAsWritten(line: Bytes): (v: LineVerdict)
  {
    var colon := IndexOf(line, ':');
    var name := if colon.Some? then line[..colon.value] else line;
    if |name| > 0 && name[|name| - 1] == ' ' then Rejected(InvalidSpacing)
    else
      var key := ToLower(TrimSpace(name));
      if !CheckHeaderKey(key) then Rejected(InvalidKey)
      else if colon.None? then IndexPanic
      else Field(key, TrimSpace(line[colon.value + 1..]))
  }

  /** The panic happens exactly on a line with no colon whose name is
      otherwise acceptable. */
  lemma LineAsWrittenPanics(line: Bytes)
    ensures LineAsWritten(line) == IndexPanic <==>
      ':' !in line && (line == [] || line[|line| - 1] != ' ') && CheckHeaderKey(ToLower(TrimSpace(line)))
  {
  }

  /** The line reading the rest of the model uses: the panic becomes the
      error MissingColon; every other outcome is the one written. */
  function ParseFieldLine(line: Bytes): (r: Result<(Bytes, Bytes), HeaderError>)
    ensures r.Success? <==> LineAsWritten(line).Field?
    ensures r.Success? ==> r.value == (LineAsWritten(line).key, LineAsWritten(line).value)
    ensures r.Failure? ==> r.error == if LineAsWritten(line).IndexPanic? then MissingColon
                                      else LineAsWritten(line).error
  {
    match LineAsWritten(line)
    case Field(k, v) => Success((k, v))
    case Rejected(e) => Failure(e)
    case IndexPanic => Failure(MissingColon)
  }

  /** Headers.Parse on a map value: at most one line from the front of `data`. */
  function ParseFields(h: Fields, data: Bytes): (r: Result<Parsed, HeaderError>)
    ensures FindCrlf(data).None? ==> r == Success(Parsed(h, 0, false))
    ensures FindCrlf(data) == Some(0) ==> r == Success(Parsed(h, 2, true))
    ensures r.Success? ==> r.value.n <= |data|
    ensures r.Success? && r.value.n > 0 ==> FindCrlf(data) == Some(r.value.n - 2)
    ensures r.Success? && r.value.n == 0 ==> FindCrlf(data).None?
    ensures r.Success? && (r.value.done || r.value.n == 0) ==> r.value.fields == h
  {
    match FindCrlf(data)
    case None => Success(Parsed(h, 0, false))
    case Some(idx) =>
      if idx == 0 then Success(Parsed(h, 2, true))
      else
        var field := ParseFieldLine(data[..idx]);
        if field.Failure? then Failure(field.error)
        else Success(Parsed(SetField(h, field.value.0, field.value.1), idx + 2, false))
  }

  /** The outcome is decided by the first line: bytes after its CRLF, or
      arriving later, change nothing. */
  lemma ParseFieldsFirstLineOnly(h: Fields, data: Bytes, rest: Bytes)
    requires FindCrlf(data).Some?
    ensures ParseFields(h, data + rest) == ParseFields(h, data)
  {
    FindCrlfExtend(data, rest);
    var idx := FindCrlf(data).value;
    assert (data + rest)[..idx] == data[..idx];
  }

  /** A non-empty line holding no CRLF, then CRLF: the line is read as a field
      and exactly the line and its CRLF are consumed, or it is refused with
      the map untouched. */
  lemma {:induction false} ParseFieldsOneLine(h: Fields, line: Bytes, rest: Bytes)
    requires |line| > 0
    requires FindCrlf(line).None?
    ensures ParseFieldLine(line).Failure? ==>
      ParseFields(h, line + CRLF + rest) == Failure(ParseFieldLine(line).error)
    ensures ParseFieldLine(line).Success? ==>
      ParseFields(h, line + CRLF + rest) ==
      Success(Parsed(SetField(h, ParseFieldLine(line).value.0, ParseFieldLine(line).value.1),
                     |line| + 2, false))
  {
    hide ParseFieldLine, LineAsWritten;
    var data := line + CRLF + rest;
    assert IsCrlfAt(data, |line|);
    forall j | 0 <= j < |line|
      ensures !IsCrlfAt(data, j)
    {
      if j < |line| - 1 {
        assert !IsCrlfAt(line, j);
      }
    }
    assert FindCrlf(data) == Some(|line|);
    assert data[..|line|] == line;
  }

  /** Reading a line with a colon, in terms of the line itself: with `c`
      the first colon, the line is refused with InvalidSpacing exactly when
      a space stands right before the colon, and otherwise accepted exactly
      when the trimmed, lower-cased text before the colon is a valid key, the
      value being the trimmed text after the colon. */
  lemma ParseFieldLineWithColon(line: Bytes, c: nat)
    requires c < |line| && line[c] == ':' && ':' !in line[..c]
    ensures ParseFieldLine(line) == Failure(InvalidSpacing) <==> c > 0 && line[c - 1] == ' '
    ensures ParseFieldLine(line).Success? <==>
      (c == 0 || line[c - 1] != ' ') && CheckHeaderKey(ToLower(TrimSpace(line[..c])))
    ensures ParseFieldLine(line).Success? ==>
      ParseFieldLine(line).value == (ToLower(TrimSpace(line[..c])), TrimSpace(line[c + 1..]))
    ensures ParseFieldLine(line).Failure? ==> ParseFieldLine(line).error != MissingColon
  {
    assert IndexOf(line, ':') == Some(c);
  }

  /** Reading a line with no colon: it is always refused, with
      InvalidSpacing when it ends in a space and with MissingColon exactly
      when its name would otherwise be a valid key. */
  lemma ParseFieldLineWithoutColon(line: Bytes)
    requires ':' !in line
    ensures ParseFieldLine(line).Failure?
    ensures ParseFieldLine(line).error == InvalidSpacing <==> |line| > 0 && line[|line| - 1] == ' '
    ensures ParseFieldLine(line).error == MissingColon <==>
      (line == [] || line[|line| - 1] != ' ') && CheckHeaderKey(ToLower(TrimSpace(line)))
  {
    assert IndexOf(line, ':') == None;
  }

  /** A name ending in a space right before the colon is refused, whatever
      trimming would make of it. */
  lemma SpaceBeforeColonRejected(h: Fields, line: Bytes, rest: Bytes, c: nat)
    requires c < |line| && line[c] == ':' && ':' !in line[..c]
    requires c > 0 && line[c - 1] == ' '
    requires FindCrlf(line).None?
    ensures ParseFields(h, line + CRLF + rest) == Failure(InvalidSpacing)
  {
    ParseFieldLineWithColon(line, c);
    hide ParseFieldLine, LineAsWritten, ToLower, TrimSpace, CheckHeaderKey, ParseFields, SetField, IndexOf;
    ParseFieldsOneLine(h, line, rest);
  }

  /** A well-formed line: the key stored is the trimmed, lower-cased text
      before the first colon, the value the trimmed text after it (later
      colons stay in the value), and exactly the line and its CRLF are
      consumed. */
  lemma ParseFieldsStores(h: Fields, line: Bytes, rest: Bytes, c: nat)
    requires c < |line| && line[c] == ':' && ':' !in line[..c]
    requires c == 0 || line[c - 1] != ' '
    requires CheckHeaderKey(ToLower(TrimSpace(line[..c])))
    requires FindCrlf(line).None?
    ensures ParseFields(h, line + CRLF + rest) ==
      Success(Parsed(SetField(h, ToLower(TrimSpace(line[..c])), TrimSpace(line[c + 1..])),
                     |line| + 2, false))
  {
    ParseFieldLineWithColon(line, c);
    hide ParseFieldLine, LineAsWritten, ToLower, TrimSpace, CheckHeaderKey, ParseFields, SetField, IndexOf;
    ParseFieldsOneLine(h, line, rest);
  }

  /** The repaired reading of headers.go:51: a CRLF-terminated line with no
      colon is refused and nothing is stored. */
  lemma ParseRejectsLineWithoutColon(h: Fields, line: Bytes, rest: Bytes)
    requires |line| > 0 && ':' !in line
    requires FindCrlf(line).None?
    ensures ParseFields(h, line + CRLF + rest).Failure?
  {
    ParseFieldLineWithoutColon(line);
    hide ParseFieldLine, LineAsWritten, ToLower, TrimSpace, CheckHeaderKey, ParseFields, SetField, IndexOf;
    ParseFieldsOneLine(h, line, rest);
  }

  /** A lone CR is no line end: the line `x: b<CR>c` is stored with the
      CR kept in the value. */
  lemma LoneCrKept(line: Bytes, key: Bytes, value: Bytes)
    requires line == "x: b\rc" && key == "x" && value == "b\rc"
    ensures ParseFields(map[], line + CRLF) == Success(Parsed(map[key := value], |line| + 2, false))
  {
    LoneCrPieces(line, key, value);
    hide FindCrlf, TrimSpace, ToLower, ParseFields, CheckHeaderKey;
    ParseFieldsStores(map[], line, [], 1);
    assert line + CRLF + [] == line + CRLF;
  }

  /** The pieces of the line of LoneCrKept. */
  lemma LoneCrPieces(line: Bytes, key: Bytes, value: Bytes)
    requires line == "x: b\rc" && key == "x" && value == "b\rc"
    ensures FindCrlf(line).None?
    ensures line[..1] == key && TrimSpace(key) == key && ToLower(key) == key
    ensures line[2..] == [' '] + value && TrimSpace([' '] + value) == value
    ensures CheckHeaderKey(ToLower(TrimSpace(line[..1])))
  {
    assert forall j :: 0 <= j < |line| ==> line[j] != '\n';
    TrimSpaceTrimmed(key);
    TrimSpaceOfSpaced(value);
    LowerCaseOf(key, key);
  }

  /** After a line is stored, looking the field up by any spelling of its
      name that lower-cases to the stored key gives the stored value: the
      trimmed value, or the old value and it joined by ", ". */
  lemma GetAfterStore(h: Fields, line: Bytes, rest: Bytes, c: nat, name: Bytes)
    requires c < |line| && line[c] == ':' && ':' !in line[..c]
    requires c == 0 || line[c - 1] != ' '
    requires CheckHeaderKey(ToLower(TrimSpace(line[..c])))
    requires FindCrlf(line).None?
    requires ToLower(name) == ToLower(TrimSpace(line[..c]))
    ensures ParseFields(h, line + CRLF + rest).Success?
    ensures var key := ToLower(name); var value := TrimSpace(line[c + 1..]);
      Get(ParseFields(h, line + CRLF + rest).value.fields, name) ==
        if key in h then h[key] + ", " + value else value
  {
    ParseFieldsStores(h, line, rest, c);
  }

  /** As written, the bare name `Host` makes Parse index past the end of the
      one-element result of SplitN. */
  lemma BareNamePanics()
    ensures LineAsWritten("Host") == IndexPanic
  {
    assert ':' !in "Host";
    assert TrimSpace("Host") == "Host";
    assert ToLower("Host") == "host";
  }

  /** headers.Get, which the request parser calls but internal/headers does
      not define: the value of the lower-cased name, or "" when absent. */
  function Get(h: Fields, name: Bytes): (v: Bytes)
    ensures ToLower(name) in h ==> v == h[ToLower(name)]
    ensures ToLower(name) !in h ==> v == []
  {
    if ToLower(name) in h then h[ToLower(name)] else []
  }

  // ---------------------------------------------------------------------
  // A field line as the response writer puts it on the wire

  /** One `key: value` line, as fmt.Fprintf(w, "%s: %s\r\n", key, value). */
  function FieldLine(key: Bytes, value: Bytes): (line: Bytes)
    ensures |line| == |key| + |value| + 4
  {
    key + ": " + value + CRLF
  }

  /** A written field line is read back by the header parser: the key
      lower-cased, the value as written, exactly the line consumed. The key
      must be a token and the value must not start or end with white space
      or hold a CRLF. */
  lemma FieldLineReadBack(h: Fields, key: Bytes, value: Bytes, rest: Bytes)
    requires |key| > 0 && CheckHeaderKey(ToLower(key))
    requires FindCrlf(value).None?
    requires value == [] || (!IsSpace(value[0]) && !IsSpace(value[|value| - 1]))
    ensures ParseFields(h, FieldLine(key, value) + rest) ==
      Success(Parsed(SetField(h, ToLower(key), value), |FieldLine(key, value)|, false))
  {
    hide ParseFields, ToLower, TrimSpace, SetField, CheckHeaderKey, IsSpace, IsToken, FindCrlf, IsCrlfAt;
    LowerKeyIsToken(key);
    TrimSpaceOfSpaced(value);
    var line := key + ": " + value;
    FieldLineBytes(key, value);
    TrimSpaceTrimmed(key);
    assert FieldLine(key, value) + rest == line + CRLF + rest;
    ParseFieldsStores(h, line, rest, |key|);
  }

  /** The bytes of a field line, as the header parser looks at them. */
  lemma FieldLineBytes(key: Bytes, value: Bytes)
    requires IsToken(key)
    requires FindCrlf(value).None?
    ensures var line := key + ": " + value;
      |key| < |line| && line[..|key|] == key && line[|key|] == ':' && ':' !in line[..|key|] &&
      line[|key| - 1] != ' ' && line[|key| + 1..] == [' '] + value && FindCrlf(line).None?
    ensures !IsSpace(key[0]) && !IsSpace(key[|key| - 1])
  {
    TokenBytes(key);
    var line := key + ": " + value;
    var c := |key|;
    assert line[..c] == key && line[c] == ':' && line[c + 1] == ' ';
    assert line[c + 1..] == [' '] + value;
    assert forall j :: c + 2 <= j < |line| ==> line[j] == value[j - c - 2];
    assert forall j :: c + 2 <= j < |line| ==> IsCrlfAt(line, j) == IsCrlfAt(value, j - c - 2);
    assert forall j :: 0 <= j < c + 2 ==> !IsCrlfAt(line, j);
  }

  /** The bytes of a token are neither colons, CRs nor white space. */
  lemma TokenBytes(key: Bytes)
    requires IsToken(key)
    ensures forall i :: 0 <= i < |key| ==> key[i] != ':' && key[i] != CR && !IsSpace(key[i])
    ensures ':' !in key
  {
    assert forall i :: 0 <= i < |key| ==> IsTchar(key[i]);
  }

  // ---------------------------------------------------------------------
  // The collection as the Go code uses it: a map updated in place.

  class Headers {
    var fields: Fields

    /** NewHeaders */
    constructor ()
      ensures fields == map[]
    {
      fields := map[];
    }

    method Set(key: Bytes, value: Bytes)
      modifies this
      ensures fields == SetField(old(fields), key, value)
    {
      if key in fields {
        fields := fields[key := fields[key] + ", " + value];
        return;
      }
      fields := fields[key := value];
    }

    /** Headers.Parse; `err` is Go's error, None for nil. */
    method Parse(data: Bytes) returns (n: nat, done: bool, err: Option<HeaderError>)
      modifies this
      ensures ParseFields(old(fields), data).Success? ==>
        err.None? && fields == ParseFields(old(fields), data).value.fields &&
        n == ParseFields(old(fields), data).value.n && done == ParseFields(old(fields), data).value.done
      ensures ParseFields(old(fields), data).Failure? ==>
        err == Some(ParseFields(old(fields), data).error) && n == 0 && !done && fields == old(fields)
    {
      hide ToLower, TrimSpace, CheckHeaderKey, IndexOf, FindCrlf;
      var idx := FindCrlf(data);
      if idx.None? {
        return 0, false, None;
      }
      if idx.value == 0 {
        return 2, true, None;
      }
      var header := data[..idx.value];
      var colon := IndexOf(header, ':');
      var name := if colon.Some? then header[..colon.value] else header;
      if |name| > 0 && name[|name| - 1] == ' ' {
        return 0, false, Some(InvalidSpacing);
      }
      var key := ToLower(TrimSpace(name));
      if !CheckHeaderKey(key) {
        return 0, false, Some(InvalidKey);
      }
      if colon.None? {
        return 0, false, Some(MissingColon);
      }
      var value := TrimSpace(header[colon.value + 1..]);
      Set(key, value);
      return idx.value + 2, false, None;
    }
  }
}
