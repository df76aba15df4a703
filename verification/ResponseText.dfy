/** What the response framing reads out of heads that were written out. */
module ResponseText {
  import opened Bytes
  import opened HttpHead
  import opened HeadText
  import opened ResponseFraming

  /** The field at `k` is the last one called Content-Length. */
  predicate LastNamed(headers: seq<HttpHead.Header>, k: nat) {
    && k < |headers| && SameName(headers[k].name, CONTENT_LENGTH)
    && forall j :: k < j < |headers| ==> !SameName(headers[j].name, CONTENT_LENGTH)
  }

  /** For responses the last Content-Length counts, and without one the length is not known. */
  lemma {:induction false} LastContentLen(headers: seq<HttpHead.Header>)
    ensures forall k: nat :: LastNamed(headers, k) ==> ContentLen(headers) == ParseUsize(headers[k].value)
    ensures NoneNamed(headers) ==> ContentLen(headers) == None
  {
    if headers != [] {
      var n := |headers| - 1;
      LastContentLen(headers[..n]);
      hide SameName;
      forall k: nat | LastNamed(headers, k)
        ensures ContentLen(headers) == ParseUsize(headers[k].value)
      {
        if k < n {
          assert !SameName(headers[n].name, CONTENT_LENGTH);
          assert LastNamed(headers[..n], k);
        }
      }
    }
  }

  /** Version, three digits and anything behind them. */
  function StatusText(minor: byte, a: nat, b: nat, c: nat, reason: bytes): bytes
    requires a < 10 && b < 10 && c < 10
  {
    HTTP_1 + [minor] + SP + [(48 + a) as byte, (48 + b) as byte, (48 + c) as byte] + reason
  }

  lemma StatusSlices(minor: byte, a: nat, b: nat, c: nat, reason: bytes, rest: bytes)
    requires a < 10 && b < 10 && c < 10
    ensures var head := StatusText(minor, a, b, c, reason) + rest;
      && |head| >= 12 && head[..7] == HTTP_1 && head[8..9] == SP
      && head[9..12] == [(48 + a) as byte, (48 + b) as byte, (48 + c) as byte]
  {
  }

  lemma ThreeDigits(a: nat, b: nat, c: nat)
    requires a < 10 && b < 10 && c < 10
    ensures DecimalValue([(48 + a) as byte, (48 + b) as byte, (48 + c) as byte]) == Some(100 * a + 10 * b + c)
  {
    var x, y, z := (48 + a) as byte, (48 + b) as byte, (48 + c) as byte;
    assert [x, y, z][..2] == [x, y] && [x, y][..1] == [x] && [x][..0] == [];
    assert DecimalValue([]) == Some(0);
    assert DecimalValue([x]) == Some(a);
    assert DecimalValue([x, y]) == Some(10 * a + b);
  }

  predicate ResponseParts(minor: byte, a: nat, b: nat, c: nat, reason: bytes, fields: seq<HttpHead.Header>) {
    && a < 10 && b < 10 && c < 10 && minor != 13 && Without(reason, 13)
    && AllFields(fields) && |fields| <= MAX_HEADERS
  }

  /** Behind a line end the first empty line is the one that was written there. */
  lemma {:induction false} FieldsEnd(before: bytes, fields: seq<HttpHead.Header>, rest: bytes)
    requires AllFields(fields) && |before| >= 2 && before[|before| - 2..] == CR_LF
    ensures var u, end := before + WrittenFields(fields) + CR_LF + rest, |before + WrittenFields(fields)|;
      FindFrom(u, CR_LF_2, |before| - 2) == Some(end - 2)
    decreases |fields|
  {
    hide FindFrom, FieldText;
    var u, end := before + WrittenFields(fields) + CR_LF + rest, |before + WrittenFields(fields)|;
    if fields == [] {
      EmptyLineHere(before, rest);
      assert before + [] == before && u == before + CR_LF + rest;
    } else {
      var text, more := FieldText(fields[0]), WrittenFields(fields[1..]);
      FieldTextParsed(fields[0]);
      var next := before + text + CR_LF;
      assert u == next + more + CR_LF + rest && u == before + text + CR_LF + (more + CR_LF + rest);
      assert next[|next| - 2..] == CR_LF;
      FieldsEnd(next, fields[1..], rest);
      FieldBytes(before, text, more + CR_LF + rest);
      OverField(u, |before| - 2, |before| + |text|);
      assert before + WrittenFields(fields) == next + more;
    }
  }

  lemma EmptyLineHere(before: bytes, rest: bytes)
    requires |before| >= 2 && before[|before| - 2..] == CR_LF
    ensures FindFrom(before + CR_LF + rest, CR_LF_2, |before| - 2) == Some(|before| - 2)
  {
    var u, at := before + CR_LF + rest, |before| - 2;
    assert u[at..at + 4] == before[at..] + CR_LF;
    assert At(u, CR_LF_2, at);
  }

  /** The search for an empty line passes over a line end and the field behind it. */
  lemma OverField(u: bytes, from: nat, to: nat)
    requires from + 2 < to <= |u| && u[from] == 13 && u[from + 1] == 10
    requires forall i :: from + 2 <= i < to ==> u[i] != 13
    ensures FindFrom(u, CR_LF_2, to).Some? ==> FindFrom(u, CR_LF_2, from) == FindFrom(u, CR_LF_2, to)
  {
    hide FindFrom;
    forall j | from <= j < to
      ensures !At(u, CR_LF_2, j)
    {
      assert j + 4 <= |u| ==> u[j..j + 4][0] == u[j] && u[j..j + 4][2] == u[j + 2];
    }
    SkipTo(u, from, to);
  }

  lemma FieldBytes(before: bytes, text: bytes, rest: bytes)
    requires |before| >= 2 && before[|before| - 2..] == CR_LF && text != [] && Without(text, 13)
    ensures var u, from, to := before + text + CR_LF + rest, |before| - 2, |before| + |text|;
      && from + 2 < to <= |u| && u[from] == 13 && u[from + 1] == 10
      && (forall i :: from + 2 <= i < to ==> u[i] != 13)
  {
    var u, from := before + text + CR_LF + rest, |before| - 2;
    assert u[from] == before[from..][0] && u[from + 1] == before[from..][1];
    forall i | from + 2 <= i < |before| + |text|
      ensures u[i] != 13
    {
      assert u[i] == text[i - |before|];
    }
  }

  lemma SkipTo(u: bytes, from: nat, to: nat)
    requires from <= to && forall j :: from <= j < to ==> !At(u, CR_LF_2, j)
    ensures FindFrom(u, CR_LF_2, to).Some? ==> FindFrom(u, CR_LF_2, from) == FindFrom(u, CR_LF_2, to)
  {
  }

  lemma HeadEnd(line: bytes, fields: seq<HttpHead.Header>, rest: bytes)
    requires Without(line, 13) && AllFields(fields)
    ensures Find(WrittenHead(line, fields) + rest, CR_LF_2) == Some(|WrittenHead(line, fields)| - 4)
  {
    var u, before := WrittenHead(line, fields) + rest, line + CR_LF;
    assert u == before + WrittenFields(fields) + CR_LF + rest;
    FieldsEnd(before, fields, rest);
    forall j | 0 <= j < |line|
      ensures !At(u, CR_LF_2, j)
    {
      assert u[j] == line[j];
      assert j + 4 <= |u| ==> u[j..j + 4][0] == u[j];
    }
    hide FindFrom;
    SkipTo(u, 0, |line|);
    FindIsFindFrom(u, CR_LF_2);
  }

  lemma HeadParsed(minor: byte, a: nat, b: nat, c: nat, reason: bytes, fields: seq<HttpHead.Header>)
    requires ResponseParts(minor, a, b, c, reason, fields)
    ensures FromHead(WrittenHead(StatusText(minor, a, b, c, reason), fields)) ==
      Some(ResponseHead(100 * a + 10 * b + c, fields))
  {
    hide Find, FindFrom, ScanHeaders, WrittenFields, DecimalValue;
    var line := StatusText(minor, a, b, c, reason);
    var head, rest := WrittenHead(line, fields), WrittenFields(fields) + CR_LF;
    assert head == line + CR_LF + rest && head == line + (CR_LF + rest);
    StatusSlices(minor, a, b, c, reason, CR_LF + rest);
    ThreeDigits(a, b, c);
    StatusHasNoCr(minor, a, b, c, reason);
    FirstLineOf(line, rest);
    FieldsScanned(line + CR_LF, fields, [], []);
    assert line + CR_LF + WrittenFields(fields) + CR_LF + [] == head && [] + fields == fields;
  }

  lemma StatusHasNoCr(minor: byte, a: nat, b: nat, c: nat, reason: bytes)
    requires a < 10 && b < 10 && c < 10 && minor != 13 && Without(reason, 13)
    ensures Without(StatusText(minor, a, b, c, reason), 13) && |StatusText(minor, a, b, c, reason)| >= 12
  {
  }

  /**
   * A written response head in front of anything is framed as written: its status, its fields, a body that starts
   * right behind the empty line, and the length of the last Content-Length if there is one.
   */
  lemma ResponseFramed(minor: byte, a: nat, b: nat, c: nat, reason: bytes, fields: seq<HttpHead.Header>, rest: bytes)
    requires ResponseParts(minor, a, b, c, reason, fields)
    ensures var text := WrittenHead(StatusText(minor, a, b, c, reason), fields);
      var head := ResponseHead(100 * a + 10 * b + c, fields);
      Frame(text + rest) ==
        match ContentLen(fields)
        case None => Open(head, |text|)
        case Some(length) => Fixed(head, |text|, length)
  {
    hide Find, FromHead, ContentLen, StatusText, WrittenFields;
    var line := StatusText(minor, a, b, c, reason);
    var text := WrittenHead(line, fields);
    StatusHasNoCr(minor, a, b, c, reason);
    HeadEnd(line, fields, rest);
    HeadParsed(minor, a, b, c, reason, fields);
    assert (text + rest)[..|text|] == text;
  }

  /** A written response with Content-Length, in front of anything, is the next response of the stream. */
  lemma ResponseDelivered(minor: byte, a: nat, b: nat, c: nat, reason: bytes, fields: seq<HttpHead.Header>, body: bytes,
                          tail: bytes)
    requires ResponseParts(minor, a, b, c, reason, fields) && ContentLen(fields) == Some(|body|)
    ensures var text := WrittenHead(StatusText(minor, a, b, c, reason), fields);
      ResponseFraming.Next(text + (body + tail)) ==
        Some((Response(ResponseHead(100 * a + 10 * b + c, fields), body), tail))
  {
    hide Frame, ContentLen, StatusText, WrittenFields;
    var text := WrittenHead(StatusText(minor, a, b, c, reason), fields);
    ResponseFramed(minor, a, b, c, reason, fields, body + tail);
    var u := text + (body + tail);
    assert u[|text|..|text| + |body|] == body && u[|text| + |body|..] == tail;
  }
}
