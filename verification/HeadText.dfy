/** What the head parsers read out of heads that were written out, with nothing taken from the parsers themselves. */
module HeadText {
  import opened Bytes
  import opened HttpHead
  import opened RequestFraming

  function Ascii(s: string): bytes
    requires forall i :: 0 <= i < |s| ==> s[i] as int < 128
  {
    seq(|s|, i requires 0 <= i < |s| => s[i] as int as byte)
  }

  /** The fixed texts, as characters. */
  lemma Texts()
    ensures CONTENT_LENGTH == Ascii("content-length") && HTTP_1 == Ascii("HTTP/1.")
    ensures SP == Ascii(" ") && COLON == Ascii(":")
  {
  }

  // ---- Lines ----

  predicate Without(s: bytes, b: byte) {
    forall i :: 0 <= i < |s| ==> s[i] != b
  }

  /** The first occurrence of a single byte behind bytes without it. */
  lemma FindByte(before: bytes, plain: bytes, b: byte, rest: bytes)
    requires Without(plain, b)
    ensures FindFrom(before + plain + [b] + rest, [b], |before|) == Some(|before| + |plain|)
  {
    var s := before + plain + [b] + rest;
    var end := |before| + |plain|;
    assert At(s, [b], end) by { assert s[end..end + 1] == [b]; }
    forall j | |before| <= j < end
      ensures !At(s, [b], j)
    {
      assert s[j] == plain[j - |before|];
      assert s[j..j + 1] == [s[j]];
    }
  }

  function WrittenLine(verb: bytes, path: bytes, minor: byte): bytes {
    verb + SP + path + SP + HTTP_1 + [minor]
  }

  /** Verb, path and version of a request line, the first two without blanks. */
  predicate LineParts(verb: bytes, path: bytes, minor: byte) {
    verb != [] && path != [] && Without(verb, 32) && Without(path, 32) && (minor == 48 || minor == 49)
  }

  lemma LineSlices(verb: bytes, path: bytes, minor: byte)
    ensures var line := WrittenLine(verb, path, minor);
      var i, j := |verb|, |verb| + 1 + |path|;
      && |line| == j + 9 && line[..i] == verb && line[i + 1..j] == path
      && line[j + 1..j + 8] == HTTP_1 && line[j + 8] == minor
      && line == [] + verb + [32] + (path + SP + HTTP_1 + [minor])
      && line == (verb + SP) + path + [32] + (HTTP_1 + [minor])
  {
  }

  lemma LineParsed(verb: bytes, path: bytes, minor: byte)
    requires LineParts(verb, path, minor)
    ensures ParseRequestLine(WrittenLine(verb, path, minor)) == RequestLine(verb, path)
  {
    hide Find, FindFrom, WrittenLine;
    var line := WrittenLine(verb, path, minor);
    LineSlices(verb, path, minor);
    FindByte([], verb, 32, path + SP + HTTP_1 + [minor]);
    FindIsFindFrom(line, SP);
    FindByte(verb + SP, path, 32, HTTP_1 + [minor]);
  }

  predicate LineOf(line: bytes, verb: bytes, path: bytes, minor: byte) {
    LineParts(verb, path, minor) && line == WrittenLine(verb, path, minor)
  }

  /** A request line is accepted if and only if it is written like that, and then these are its parts. */
  lemma LineIff(line: bytes, verb: bytes, path: bytes)
    ensures ParseRequestLine(line) == RequestLine(verb, path) <==> exists minor :: LineOf(line, verb, path, minor)
  {
    hide ParseRequestLine;
    if ParseRequestLine(line) == RequestLine(verb, path) {
      var minor := LineWritten(line, verb, path);
    }
    forall minor | LineOf(line, verb, path, minor)
      ensures ParseRequestLine(line) == RequestLine(verb, path)
    {
      LineParsed(verb, path, minor);
    }
  }

  lemma LineWritten(line: bytes, verb: bytes, path: bytes) returns (minor: byte)
    requires ParseRequestLine(line) == RequestLine(verb, path)
    ensures LineOf(line, verb, path, minor)
  {
    var i := Find(line, SP).value;
    var j := FindFrom(line, SP, i + 1).value;
    minor := line[j + 8];
    UpTo(line, 32, 0, i);
    UpTo(line, 32, i + 1, j);
    hide Find, FindFrom;
    assert line[i..i + 1] == SP && line[j..j + 1] == SP && line[j + 8..] == [minor];
    assert line == line[..i] + line[i..i + 1] + line[i + 1..j] + line[j..j + 1] + line[j + 1..j + 8] + line[j + 8..];
  }

  lemma UpTo(s: bytes, b: byte, from: nat, to: nat)
    requires from <= to <= |s| && forall k: nat :: from <= k < to ==> !At(s, [b], k)
    ensures Without(s[from..to], b)
  {
    forall k | from <= k < to
      ensures s[k] != b
    {
      assert !At(s, [b], k) && s[k..k + 1] == [s[k]];
    }
  }

  predicate AllBlank(s: bytes) {
    forall i :: 0 <= i < |s| ==> IsBlank(s[i])
  }

  /** No blank at either end. */
  predicate Trimmed(s: bytes) {
    s == [] || (!IsBlank(s[0]) && !IsBlank(s[|s| - 1]))
  }

  /** Trimming takes away the blanks at both ends and nothing else. */
  lemma {:induction false} TrimPadded(left: bytes, value: bytes, right: bytes)
    requires AllBlank(left) && AllBlank(right) && Trimmed(value)
    ensures Trim(left + value + right) == value
    decreases |left| + |right|
  {
    var s := left + value + right;
    if left != [] {
      assert s[1..] == left[1..] + value + right;
      TrimPadded(left[1..], value, right);
    } else if value == [] {
      assert s == right;
      if right != [] {
        assert s[1..] == right[1..] + [] + [];
        assert right[1..] + [] + [] == right[1..];
        TrimPadded(right[1..], [], []);
      }
    } else if right != [] {
      var n := |right| - 1;
      assert s[0] == value[0] && s[|s| - 1] == right[n];
      assert s[..|s| - 1] == left + value + right[..n];
      TrimPadded(left, value, right[..n]);
    } else {
      assert s == value;
    }
  }

  /** A field line with any blanks around its value. */
  lemma FieldParsed(name: bytes, left: bytes, value: bytes, right: bytes)
    requires name != [] && Without(name, 58) && AllBlank(left) && AllBlank(right) && Trimmed(value)
    ensures ParseHeaderLine(name + COLON + left + value + right) == Some(Header(name, value))
  {
    var line, i := name + COLON + left + value + right, |name|;
    FindByte([], name, 58, left + value + right);
    assert line == [] + name + [58] + (left + value + right);
    FindIsFindFrom(line, COLON);
    assert line[..i] == name && line[i + 1..] == left + value + right;
    TrimPadded(left, value, right);
  }

  // ---- Fields ----

  predicate FieldParts(f: Header) {
    && f.name != [] && Without(f.name, 58) && Without(f.name, 13)
    && Without(f.value, 13) && Trimmed(f.value)
  }

  predicate AllFields(fields: seq<Header>) {
    forall i :: 0 <= i < |fields| ==> FieldParts(fields[i])
  }

  function FieldText(f: Header): bytes {
    f.name + COLON + SP + f.value
  }

  function WrittenFields(fields: seq<Header>): bytes {
    if fields == [] then [] else FieldText(fields[0]) + CR_LF + WrittenFields(fields[1..])
  }

  lemma FieldTextParsed(f: Header)
    requires FieldParts(f)
    ensures ParseHeaderLine(FieldText(f)) == Some(f) && Without(FieldText(f), 13) && FieldText(f) != []
  {
    FieldParsed(f.name, SP, f.value, []);
    assert FieldText(f) + [] == FieldText(f) && f.name + COLON + SP + f.value + [] == FieldText(f);
  }

  /** Written fields and the empty line are read as those fields, up to 64 of them; one more is an error. */
  lemma {:induction false} FieldsScanned(before: bytes, fields: seq<Header>, rest: bytes, acc: seq<Header>)
    requires AllFields(fields) && |acc| <= MAX_HEADERS
    ensures ScanHeaders(before + WrittenFields(fields) + CR_LF + rest, |before|, acc) ==
      if |acc| + |fields| <= MAX_HEADERS then Complete(|before + WrittenFields(fields)| + 2, acc + fields)
      else Failed(TooManyHeaders)
    decreases |fields|
  {
    hide ParseHeaderLine, Find, FindFrom, ScanHeaders, FieldText;
    var u := before + WrittenFields(fields) + CR_LF + rest;
    if fields == [] {
      assert u == before + [] + CR_LF + rest;
      FindAfterPlain(before, [], rest);
      ScanEnd(u, |before|, acc);
      assert acc + fields == acc && before + [] == before;
    } else {
      var line, more := FieldText(fields[0]), WrittenFields(fields[1..]);
      FieldTextParsed(fields[0]);
      FindAfterPlain(before, line, more + CR_LF + rest);
      var next := before + line + CR_LF;
      FieldSlices(before, line, more, rest);
      assert u == next + more + CR_LF + rest;
      ScanField(u, |before|, |before| + |line|, fields[0], acc);
      if |acc| < MAX_HEADERS {
        FieldsScanned(next, fields[1..], rest, acc + [fields[0]]);
        assert acc + [fields[0]] + fields[1..] == acc + fields;
      }
    }
  }

  lemma FieldSlices(before: bytes, line: bytes, more: bytes, rest: bytes)
    ensures var u := before + (line + CR_LF + more) + CR_LF + rest;
      && u == before + line + CR_LF + (more + CR_LF + rest) && u == before + line + CR_LF + more + CR_LF + rest
      && u[|before|..|before| + |line|] == line
      && before + (line + CR_LF + more) == before + line + CR_LF + more
  {
  }

  lemma ScanEnd(u: bytes, at: nat, acc: seq<Header>)
    requires at <= |u| && FindFrom(u, CR_LF, at) == Some(at)
    ensures ScanHeaders(u, at, acc) == Complete(at + 2, acc)
  {
    hide FindFrom;
  }

  lemma ScanField(u: bytes, at: nat, end: nat, f: Header, acc: seq<Header>)
    requires at < end && FindFrom(u, CR_LF, at) == Some(end) && ParseHeaderLine(u[at..end]) == Some(f)
    ensures ScanHeaders(u, at, acc) ==
      if |acc| == MAX_HEADERS then Failed(TooManyHeaders) else ScanHeaders(u, end + 2, acc + [f])
  {
    hide FindFrom, ParseHeaderLine;
  }

  // ---- Requests ----

  function WrittenHead(line: bytes, fields: seq<Header>): bytes {
    line + CR_LF + WrittenFields(fields) + CR_LF
  }

  predicate RequestParts(verb: bytes, path: bytes, minor: byte, fields: seq<Header>) {
    && LineParts(verb, path, minor) && Without(verb, 13) && Without(path, 13)
    && AllFields(fields) && |fields| <= MAX_HEADERS
  }

  lemma FirstLineOf(line: bytes, rest: bytes)
    requires Without(line, 13)
    ensures Find(line + CR_LF + rest, CR_LF) == Some(|line|) && (line + CR_LF + rest)[..|line|] == line
  {
    FindAfterPlain([], line, rest);
    assert [] + line + CR_LF + rest == line + CR_LF + rest;
    FindIsFindFrom(line + CR_LF + rest, CR_LF);
  }

  lemma LineHasNoCr(verb: bytes, path: bytes, minor: byte)
    requires LineParts(verb, path, minor) && Without(verb, 13) && Without(path, 13)
    ensures Without(WrittenLine(verb, path, minor), 13)
  {
  }

  /** A written request is parsed to its verb, path, fields and body, and its head ends where it was written to end. */
  lemma RequestParsed(verb: bytes, path: bytes, minor: byte, fields: seq<Header>, body: bytes)
    requires RequestParts(verb, path, minor, fields)
    ensures var head := WrittenHead(WrittenLine(verb, path, minor), fields);
      && ScanRequest(head + body) == Complete(|head|, fields)
      && New(head + body) == Parsed(Request(verb, path, fields, body, |head + body|))
  {
    hide Find, FindFrom, ParseRequestLine, ScanHeaders, WrittenFields, WrittenLine;
    var line := WrittenLine(verb, path, minor);
    var head := WrittenHead(line, fields);
    var rest := WrittenFields(fields) + CR_LF + body;
    assert head + body == line + CR_LF + rest;
    LineHasNoCr(verb, path, minor);
    FirstLineOf(line, rest);
    LineParsed(verb, path, minor);
    FieldsScanned(line + CR_LF, fields, body, []);
    assert line + CR_LF + WrittenFields(fields) + CR_LF + body == head + body && [] + fields == fields;
    assert (head + body)[|head|..] == body;
  }

  /**
   * A written request with its announced body, in front of anything, is the next request of the stream, with
   * exactly its verb, path, fields and body.
   */
  lemma WrittenDelivered(cap: nat, limit: nat, verb: bytes, path: bytes, minor: byte, fields: seq<Header>, body: bytes,
                         tail: bytes)
    requires RequestParts(verb, path, minor, fields) && ContentLength(fields) == Some(|body|)
    requires var head := WrittenHead(WrittenLine(verb, path, minor), fields);
      |head| <= cap && |head| + |body| <= limit && |head| + |body| < USIZE
    ensures var whole := WrittenHead(WrittenLine(verb, path, minor), fields) + body;
      Frames(cap, limit, whole + tail) ==
        [Request(verb, path, fields, body, |whole|)] + Frames(cap, limit, tail)
  {
    hide ContentLength, ScanRequest, New, WrittenLine, WrittenFields;
    var head := WrittenHead(WrittenLine(verb, path, minor), fields);
    var u := head + body + tail;
    RequestParsed(verb, path, minor, fields, body + tail);
    RequestParsed(verb, path, minor, fields, body);
    assert head + (body + tail) == u && u[..|head + body|] == head + body && u[|head + body|..] == tail;
  }

  // ---- Numbers ----

  function Digits(n: nat, width: nat): (s: bytes)
    ensures |s| == width
  {
    if width == 0 then [] else Digits(n / 10, width - 1) + [(48 + n % 10) as byte]
  }

  function Pow10(k: nat): nat {
    if k == 0 then 1 else 10 * Pow10(k - 1)
  }

  lemma {:induction false} DigitsValue(n: nat, width: nat)
    requires n < Pow10(width)
    ensures DecimalValue(Digits(n, width)) == Some(n)
  {
    if width > 0 {
      DigitsValue(n / 10, width - 1);
      var s := Digits(n, width);
      assert s[..|s| - 1] == Digits(n / 10, width - 1);
    }
  }

  /** A number is accepted if and only if every byte is a decimal digit. */
  lemma {:induction false} DecimalIff(s: bytes)
    ensures DecimalValue(s).Some? <==> forall i :: 0 <= i < |s| ==> 48 <= s[i] <= 57
  {
    if s != [] {
      DecimalIff(s[..|s| - 1]);
    }
  }

  /** Printed numbers are read back, with or without a plus sign, at any width, if they fit the machine word. */
  lemma PrintedUsize(n: nat, width: nat)
    requires 0 < width && n < Pow10(width)
    ensures ParseUsize(Digits(n, width)) == (if n < USIZE then Some(n) else None)
    ensures ParseUsize([43] + Digits(n, width)) == (if n < USIZE then Some(n) else None)
  {
    DigitsValue(n, width);
    DecimalIff(Digits(n, width));
    assert ([43] + Digits(n, width))[1..] == Digits(n, width);
  }
}
