/**
 * A request-head scanner in place of the foreign `httparse`: request line, at most 64 header
 * fields, empty line. What the framing code needs of it is proved: more input never changes an
 * answer, and the answer needs no byte beyond the head.
 */
module HttpHead {
  import opened Bytes

  datatype Header = Header(name: bytes, value: bytes)
  datatype HeadError = Token | Version | HeaderName | HeaderValue | TooManyHeaders
  datatype Scan = Partial | Complete(size: nat, headers: seq<Header>) | Failed(error: HeadError)
  datatype RequestLine = RequestLine(verb: bytes, path: bytes) | LineError(error: HeadError)

  const MAX_HEADERS: nat := 64
  const SP: bytes := [32]
  const COLON: bytes := [58]
  const HTTP_1: bytes := [72, 84, 84, 80, 47, 49, 46]
  const CONTENT_LENGTH: bytes := [99, 111, 110, 116, 101, 110, 116, 45, 108, 101, 110, 103, 116, 104]

  function ParseRequestLine(line: bytes): RequestLine {
    match Find(line, SP)
    case None => LineError(Token)
    case Some(i) =>
      match FindFrom(line, SP, i + 1)
      case None => LineError(Token)
      case Some(j) =>
        if i == 0 || j == i + 1 then LineError(Token)
        else if |line| != j + 9 || line[j + 1..j + 8] != HTTP_1 || line[j + 8] !in [48, 49] then LineError(Version)
        else RequestLine(line[..i], line[i + 1..j])
  }

  function ParseHeaderLine(line: bytes): Option<Header> {
    match Find(line, COLON)
    case None => None
    case Some(i) => if i == 0 then None else Some(Header(line[..i], Trim(line[i + 1..])))
  }

  predicate IsBlank(b: byte) {
    b == 32 || b == 9
  }

  function Trim(s: bytes): bytes {
    if s == [] then []
    else if IsBlank(s[0]) then Trim(s[1..])
    else if IsBlank(s[|s| - 1]) then Trim(s[..|s| - 1])
    else s
  }

  /** Header fields from `at` up to the empty line. */
  function ScanHeaders(buf: bytes, at: nat, acc: seq<Header>): (r: Scan)
    requires at <= |buf|
    ensures r.Complete? ==> at + 2 <= r.size <= |buf|
    decreases |buf| - at
  {
    match FindFrom(buf, CR_LF, at)
    case None => Partial
    case Some(i) =>
      if i == at then Complete(at + 2, acc)
      else if |acc| == MAX_HEADERS then Failed(TooManyHeaders)
      else
        match ParseHeaderLine(buf[at..i])
        case None => Failed(HeaderName)
        case Some(header) => ScanHeaders(buf, i + 2, acc + [header])
  }

  function ScanRequest(buf: bytes): (r: Scan)
    ensures r.Complete? ==> 4 <= r.size <= |buf|
  {
    match Find(buf, CR_LF)
    case None => Partial
    case Some(i) =>
      match ParseRequestLine(buf[..i])
      case LineError(e) => Failed(e)
      case RequestLine(_, _) => ScanHeaders(buf, i + 2, [])
  }

  /** An answer, once given, is unchanged by more input; and a head is found as soon as all of it is there. */
  lemma {:induction false} ScanHeadersStable(buf: bytes, more: bytes, at: nat, acc: seq<Header>)
    requires at <= |buf|
    ensures !ScanHeaders(buf, at, acc).Partial? ==> ScanHeaders(buf + more, at, acc) == ScanHeaders(buf, at, acc)
    ensures var r := ScanHeaders(buf + more, at, acc);
      r.Complete? && r.size <= |buf| ==> ScanHeaders(buf, at, acc) == r
    decreases |buf| - at
  {
    hide ParseHeaderLine, FindFrom;
    FindStable(buf, more, CR_LF, at);
    var found := FindFrom(buf + more, CR_LF, at);
    if found.Some? && found.value + 2 <= |buf| {
      var i := found.value;
      assert (buf + more)[at..i] == buf[at..i];
      match ParseHeaderLine(buf[at..i])
      case None =>
      case Some(header) =>
        if i != at && |acc| != MAX_HEADERS {
          ScanHeadersStable(buf, more, i + 2, acc + [header]);
        }
    }
  }

  lemma ScanRequestStable(buf: bytes, more: bytes)
    ensures !ScanRequest(buf).Partial? ==> ScanRequest(buf + more) == ScanRequest(buf)
    ensures var r := ScanRequest(buf + more); r.Complete? && r.size <= |buf| ==> ScanRequest(buf) == r
  {
    FindStable(buf, more, CR_LF, 0);
    var found := Find(buf + more, CR_LF);
    if found.Some? && found.value + 2 <= |buf| {
      assert (buf + more)[..found.value] == buf[..found.value];
      ScanHeadersStable(buf, more, found.value + 2, []);
    }
  }

  /**
   * On any prefix the scanner waits or already gives its final answer, the latter exactly when the head is
   * all there.
   */
  lemma PrefixScan(u: bytes, k: nat)
    requires k <= |u|
    ensures ScanRequest(u[..k]).Partial? || ScanRequest(u[..k]) == ScanRequest(u)
    ensures ScanRequest(u).Complete? ==> (ScanRequest(u[..k]).Complete? <==> ScanRequest(u).size <= k)
  {
    assert u == u[..k] + u[k..];
    ScanRequestStable(u[..k], u[k..]);
  }

  // ---- Content-Length ----

  function Lower(b: byte): byte {
    if 65 <= b <= 90 then b + 32 else b
  }

  predicate SameName(a: bytes, b: bytes) {
    |a| == |b| && forall i :: 0 <= i < |a| ==> Lower(a[i]) == Lower(b[i])
  }

  function DecimalValue(s: bytes): Option<nat> {
    if s == [] then Some(0)
    else if !(48 <= s[|s| - 1] <= 57) then None
    else
      match DecimalValue(s[..|s| - 1])
      case None => None
      case Some(n) => Some(10 * n + (s[|s| - 1] - 48) as nat)
  }

  /** `str::parse::<usize>`: an optional plus sign, at least one digit, no overflow. */
  function ParseUsize(s: bytes): (r: Option<nat>)
    ensures r.Some? ==> r.value < USIZE
  {
    var digits := if s != [] && s[0] == 43 then s[1..] else s;
    var value := DecimalValue(digits);
    if digits == [] || value.None? || value.value >= USIZE then None else value
  }

  /** The value of the first Content-Length field; `None` if it is not a number, 0 if there is none. */
  function ContentLength(headers: seq<Header>): (r: Option<nat>)
    ensures r.Some? ==> r.value < USIZE
  {
    if headers == [] then Some(0)
    else if SameName(headers[0].name, CONTENT_LENGTH) then ParseUsize(headers[0].value)
    else ContentLength(headers[1..])
  }

  /** The field at `k` is the first one called Content-Length, in whatever case. */
  predicate FirstNamed(headers: seq<Header>, k: nat) {
    && k < |headers| && SameName(headers[k].name, CONTENT_LENGTH)
    && forall j :: 0 <= j < k ==> !SameName(headers[j].name, CONTENT_LENGTH)
  }

  predicate NoneNamed(headers: seq<Header>) {
    forall j :: 0 <= j < |headers| ==> !SameName(headers[j].name, CONTENT_LENGTH)
  }

  /** All fields are looked at, and the first Content-Length counts. */
  lemma {:induction false} FirstContentLength(headers: seq<Header>)
    ensures forall k: nat :: FirstNamed(headers, k) ==> ContentLength(headers) == ParseUsize(headers[k].value)
    ensures NoneNamed(headers) ==> ContentLength(headers) == Some(0)
  {
    if headers != [] {
      var rest := headers[1..];
      FirstContentLength(rest);
      hide SameName;
      forall k: nat | FirstNamed(headers, k)
        ensures ContentLength(headers) == ParseUsize(headers[k].value)
      {
        if k > 0 {
          assert SameName(rest[k - 1].name, CONTENT_LENGTH);
          forall j | 0 <= j < k - 1
            ensures !SameName(rest[j].name, CONTENT_LENGTH)
          {
            assert !SameName(headers[j + 1].name, CONTENT_LENGTH);
          }
          assert FirstNamed(rest, k - 1);
        }
      }
      if NoneNamed(headers) {
        forall j | 0 <= j < |rest|
          ensures !SameName(rest[j].name, CONTENT_LENGTH)
        {
          assert !SameName(headers[j + 1].name, CONTENT_LENGTH);
        }
      }
    }
  }

  /** Names are compared without regard to the case of letters, and to nothing else. */
  lemma SameNameIff(a: bytes, b: bytes)
    ensures SameName(a, b) <==> |a| == |b| && forall i :: 0 <= i < |a| ==>
      || a[i] == b[i]
      || (65 <= a[i] <= 90 && b[i] == a[i] + 32)
      || (65 <= b[i] <= 90 && a[i] == b[i] + 32)
  {
  }

  // ---- Request sizes and requests ----

  datatype RequestSize = Waiting | Sized(total: nat) | Bad(error: HeadError)

  /** Head length plus Content-Length in `usize` arithmetic; a Token error counts as not there yet. */
  function GetRequestSize(buf: bytes): (r: RequestSize)
    ensures r.Sized? ==> r.total < USIZE
  {
    match ScanRequest(buf)
    case Partial => Waiting
    case Failed(e) => if e == Token then Waiting else Bad(e)
    case Complete(size, headers) =>
      match ContentLength(headers)
      case None => Bad(HeaderValue)
      case Some(n) => Sized((size + n) % USIZE)
  }

  datatype Request = Request(verb: bytes, path: bytes, headers: seq<Header>, body: bytes, size: nat)
  datatype NewRequest = Incomplete | Invalid(error: HeadError) | Parsed(request: Request)

  function New(buf: bytes): NewRequest {
    match ScanRequest(buf)
    case Partial => Incomplete
    case Failed(e) => Invalid(e)
    case Complete(size, headers) =>
      match ParseRequestLine(buf[..Find(buf, CR_LF).value])
      case LineError(e) => Invalid(e)
      case RequestLine(verb, path) => Parsed(Request(verb, path, headers, buf[size..], |buf|))
  }

  /** When a size is known, when more is waited for, and what is an error. */
  lemma SizeIff(buf: bytes)
    ensures GetRequestSize(buf) == Waiting <==> ScanRequest(buf).Partial? || ScanRequest(buf) == Failed(Token)
    ensures GetRequestSize(buf).Sized? <==> ScanRequest(buf).Complete? && ContentLength(ScanRequest(buf).headers).Some?
    ensures forall e :: GetRequestSize(buf) == Bad(e) <==>
      || (ScanRequest(buf) == Failed(e) && e != Token)
      || (ScanRequest(buf).Complete? && ContentLength(ScanRequest(buf).headers).None? && e == HeaderValue)
  {
    hide ScanRequest, ContentLength;
  }

  /** The body has the length that the first Content-Length announces, none meaning zero. */
  ghost predicate BodyAnnounced(request: Request) {
    && (forall k: nat :: FirstNamed(request.headers, k) ==>
          ParseUsize(request.headers[k].value) == Some(|request.body|))
    && (NoneNamed(request.headers) ==> request.body == [])
  }

  /**
   * Parsing again exactly the bytes the size announces is complete, with a body of Content-Length
   * bytes, if and only if head length plus Content-Length does not overflow; otherwise the second
   * parse is incomplete, which is the code's "should panic" branch.
   */
  lemma ReparseTotal(buf: bytes, size: nat, headers: seq<Header>, length: nat, total: nat)
    requires |buf| < USIZE
    requires ScanRequest(buf) == Complete(size, headers) && ContentLength(headers) == Some(length)
    requires total == (size + length) % USIZE && total <= |buf|
    ensures GetRequestSize(buf) == Sized(total)
    ensures New(buf[..total]).Parsed? <==> size + length < USIZE
    ensures New(buf[..total]).Incomplete? <==> size + length >= USIZE
    ensures size + length < USIZE ==>
      var r := New(buf[..total]).request;
      total == size + length && r.size == total && r.headers == headers && r.body == buf[size..total]
  {
    hide ContentLength, ScanHeaders, Find, FindFrom;
    PrefixScan(buf, total);
    if size + length < USIZE {
      assert total == size + length;
      ParsedLine(buf[..total]);
    } else {
      assert total == size + length - USIZE < size;
    }
  }

  lemma ParsedLine(buf: bytes)
    requires ScanRequest(buf).Complete?
    ensures New(buf).Parsed?
  {
    hide ParseRequestLine;
  }

  /** "G / HTTP/1.1", "content-length:18446744073709551615": head plus length wraps below the head. */
  const OVERFLOW_LINE: bytes := [71, 32, 47, 32] + HTTP_1 + [49]
  const MAX_USIZE_TEXT: bytes := [49, 56, 52, 52, 54, 55, 52, 52, 48, 55, 51, 55, 48, 57, 53, 53, 49, 54, 49, 53]
  const OVERFLOW_HEADER: bytes := CONTENT_LENGTH + COLON + MAX_USIZE_TEXT

  lemma OverflowLine()
    ensures ParseRequestLine(OVERFLOW_LINE).RequestLine?
  {
    assert OVERFLOW_LINE[0..1][0] == 71 && OVERFLOW_LINE[2..3][0] == 47;
    assert At(OVERFLOW_LINE, SP, 1) && At(OVERFLOW_LINE, SP, 3);
    assert Find(OVERFLOW_LINE, SP) == Some(1) && FindFrom(OVERFLOW_LINE, SP, 2) == Some(3);
    assert OVERFLOW_LINE[4..11] == HTTP_1;
  }

  lemma OverflowField()
    ensures ParseHeaderLine(OVERFLOW_HEADER) == Some(Header(CONTENT_LENGTH, MAX_USIZE_TEXT))
    ensures ContentLength([Header(CONTENT_LENGTH, MAX_USIZE_TEXT)]) == Some(USIZE - 1)
  {
    forall j | 0 <= j < 14
      ensures !At(OVERFLOW_HEADER, COLON, j)
    {
      assert OVERFLOW_HEADER[j..j + 1][0] == CONTENT_LENGTH[j] != 58;
    }
    assert At(OVERFLOW_HEADER, COLON, 14) by { assert OVERFLOW_HEADER[14..15] == COLON; }
    assert OVERFLOW_HEADER[..14] == CONTENT_LENGTH && OVERFLOW_HEADER[15..] == MAX_USIZE_TEXT;
    MaxUsizeText();
  }

  lemma MaxUsizeText()
    ensures DecimalValue(MAX_USIZE_TEXT) == Some(USIZE - 1)
  {
    hide DecimalValue;
    var s := MAX_USIZE_TEXT;
    assert DecimalValue(s[..8]) == Some(18446744) by {
      assert DecimalValue(s[..0]) == Some(0) by { EmptyDecimal(); assert s[..0] == []; }
      Digits4(s, 0);
      Digits4(s, 4);
    }
    assert DecimalValue(s[..16]) == Some(1844674407370955) by {
      Digits4(s, 8);
      Digits4(s, 12);
    }
    Digits4(s, 16);
    assert s[..20] == s;
  }

  lemma EmptyDecimal()
    ensures DecimalValue([]) == Some(0)
  {
  }

  lemma Digits4(s: bytes, k: nat)
    requires k + 4 <= |s| && DecimalValue(s[..k]).Some?
    requires forall i :: k <= i < k + 4 ==> 48 <= s[i] <= 57
    ensures DecimalValue(s[..k + 4]) == Some(10000 * DecimalValue(s[..k]).value + 1000 * (s[k] - 48) as nat
      + 100 * (s[k + 1] - 48) as nat + 10 * (s[k + 2] - 48) as nat + (s[k + 3] - 48) as nat)
  {
    assert s[..k + 1][..k] == s[..k] && s[..k + 2][..k + 1] == s[..k + 1];
    assert s[..k + 3][..k + 2] == s[..k + 2] && s[..k + 4][..k + 3] == s[..k + 3];
    assert DecimalValue(s[..k + 1]) == Some(10 * DecimalValue(s[..k]).value + (s[k] - 48) as nat);
    assert DecimalValue(s[..k + 2]) == Some(10 * DecimalValue(s[..k + 1]).value + (s[k + 1] - 48) as nat);
    assert DecimalValue(s[..k + 3]) == Some(10 * DecimalValue(s[..k + 2]).value + (s[k + 2] - 48) as nat);
  }

  /** A head of one request line and one field. */
  lemma OneFieldHead(line: bytes, field: bytes)
    requires ParseRequestLine(line).RequestLine? && ParseHeaderLine(field).Some? && field != []
    requires forall i :: 0 <= i < |line| ==> line[i] != 13
    requires forall i :: 0 <= i < |field| ==> field[i] != 13
    ensures var buf := line + CR_LF + (field + CR_LF + CR_LF);
      ScanRequest(buf) == Complete(|buf|, [ParseHeaderLine(field).value])
  {
    var buf := line + CR_LF + (field + CR_LF + CR_LF);
    hide ParseRequestLine, ParseHeaderLine, FindFrom, Find;
    assert Find(buf, CR_LF) == Some(|line|) && buf[..|line|] == line by {
      FindAfterPlain([], line, field + CR_LF + CR_LF);
      assert buf == [] + line + CR_LF + (field + CR_LF + CR_LF);
      FindIsFindFrom(buf, CR_LF);
    }
    var first := |line| + 2;
    var second := first + |field| + 2;
    assert FindFrom(buf, CR_LF, first) == Some(second - 2) && buf[first..second - 2] == field by {
      FindAfterPlain(line + CR_LF, field, CR_LF);
      assert buf == (line + CR_LF) + field + CR_LF + CR_LF;
    }
    assert At(buf, CR_LF, second) by { assert buf[second..second + 2] == CR_LF; }
    var header := ParseHeaderLine(field).value;
    assert [] + [header] == [header];
    assert ScanHeaders(buf, second, [header]) == Complete(|buf|, [header]);
  }

  lemma OverflowWitness()
    ensures var buf := OVERFLOW_LINE + CR_LF + (OVERFLOW_HEADER + CR_LF + CR_LF);
      GetRequestSize(buf) == Sized(|buf| - 1) && New(buf[..|buf| - 1]).Incomplete?
  {
    var buf := OVERFLOW_LINE + CR_LF + (OVERFLOW_HEADER + CR_LF + CR_LF);
    hide ScanRequest, ContentLength, New, ParseRequestLine, ParseHeaderLine;
    OverflowLine();
    OverflowField();
    OneFieldHead(OVERFLOW_LINE, OVERFLOW_HEADER);
    assert (|buf| + (USIZE - 1)) % USIZE == |buf| - 1;
    ReparseTotal(buf, |buf|, [Header(CONTENT_LENGTH, MAX_USIZE_TEXT)], USIZE - 1, |buf| - 1);
  }
}
