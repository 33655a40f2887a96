/** The `GET /videos/:filename` handler (server.js): given what `fs.stat`
    reported about the file and the request's `Range` header, the status and
    headers the handler passes to `res.writeHead` and the window of the file
    it passes to `fs.createReadStream`.

    Only the single form `bytes=<start>-<end>` is understood, and only as far
    as `replace`, `split` and `parseInt` happen to understand it: there is no
    check that the start precedes the end or lies inside the file, a part that
    is not a number becomes NaN (and is printed as `NaN`), and the handler
    never chooses 416 or 400. */
module VideoRoute {
  import opened Wrappers
  import opened JsNumbers
  import opened JsStrings

  /** What the `fs.stat` callback receives: an error, or the file's stats. */
  datatype Stat = StatFailed | Stats(isFile: bool, size: nat)

  predicate IsRegularFile(stat: Stat) {
    stat.Stats? && stat.isFile
  }

  /** A header value as handed to `res.writeHead`: a string or a number. */
  datatype HeaderValue = Text(text: string) | Number(number: JsNumber)

  /** The four header names the handler writes. */
  datatype HeaderName = ContentType | ContentLength | ContentRange | AcceptRanges

  /** What follows the headers: a short message, the whole file, or the bytes
      from `start` to `end` inclusive as passed to `fs.createReadStream`. */
  datatype Body = Message(text: string) | WholeFile | Window(start: JsNumber, end: JsNumber)

  /** The status, the header object passed to `res.writeHead` (one value per
      name), and the body. */
  datatype Reply = Reply(status: nat, headers: map<HeaderName, HeaderValue>, body: Body)

  const VideoMp4: string := "video/mp4"
  const NotFoundMessage: string := "File not found"

  /** The three numbers the handler computes from a present `Range` header. */
  datatype RangeFields = RangeFields(start: JsNumber, end: JsNumber, chunkSize: JsNumber)

  /** `range.replace(/bytes=/, "").split("-")`: at least one part, and no
      part contains `-`. */
  function RangeParts(range: string): (parts: seq<string>)
    ensures |parts| >= 1
    ensures forall i :: 0 <= i < |parts| ==> '-' !in parts[i]
  {
    Split(ReplaceFirst(range, "bytes=", ""), '-')
  }

  /** `start = parseInt(parts[0])`,
      `end = parts[1] ? parseInt(parts[1]) : videoSize - 1` and
      `chunkSize = end - start + 1`. Because the parts come from splitting on
      `-`, neither parsed number can be negative; only the default end can be
      (it is -1 for an empty file). */
  function FieldsOf(parts: seq<string>, videoSize: nat): (f: RangeFields)
    requires |parts| >= 1
    requires forall i :: 0 <= i < |parts| ==> '-' !in parts[i]
    ensures f.chunkSize.Int? <==> f.start.Int? && f.end.Int?
    ensures f.chunkSize.Int? ==> f.chunkSize.value == f.end.value - f.start.value + 1
    ensures f.start.Int? ==> f.start.value >= 0
    ensures f.end.Int? ==> f.end.value >= 0 || f.end.value == videoSize - 1
  {
    var start := ParseInt(parts[0]);
    ParseIntWithoutMinus(parts[0]);
    var end := if |parts| > 1 && parts[1] != "" then ParseInt(parts[1]) else Int(videoSize - 1);
    ParseIntWithoutMinus(if |parts| > 1 then parts[1] else "");
    RangeFields(start, end, Add(Sub(end, start), Int(1)))
  }

  /** The numbers the handler computes from a present `Range` header. */
  function ParseRange(range: string, videoSize: nat): (f: RangeFields)
    ensures f.chunkSize.Int? <==> f.start.Int? && f.end.Int?
    ensures f.chunkSize.Int? ==> f.chunkSize.value == f.end.value - f.start.value + 1
  {
    FieldsOf(RangeParts(range), videoSize)
  }

  /** The `Content-Range` value: `bytes ${start}-${end}/${videoSize}`. */
  function RangeText(start: JsNumber, end: JsNumber, videoSize: nat): string {
    "bytes " + NumberToString(start) + "-" + NumberToString(end) + "/" + NumberToString(Int(videoSize))
  }

  /** The 206 reply for the numbers parsed from a `Range` header: the four
      headers passed to `res.writeHead(206, ...)` and the window passed to
      `fs.createReadStream`. The window handed to the reader is the pair shown
      in `Content-Range`, and `Content-Length` is end - start + 1 when both
      are numbers (the window's length when it is not reversed) and NaN
      otherwise. */
  function PartialReply(f: RangeFields, videoSize: nat): (r: Reply)
    requires f.chunkSize.Int? <==> f.start.Int? && f.end.Int?
    requires f.chunkSize.Int? ==> f.chunkSize.value == f.end.value - f.start.value + 1
    ensures r.status == 206 && r.body == Window(f.start, f.end)
    ensures r.headers.Keys == {ContentRange, AcceptRanges, ContentLength, ContentType}
    ensures r.headers[ContentType] == Text(VideoMp4) && r.headers[AcceptRanges] == Text("bytes")
    ensures r.headers[ContentRange] == Text(RangeText(r.body.start, r.body.end, videoSize))
    ensures r.body.start.Int? && r.body.end.Int? ==>
      r.headers[ContentLength] == Number(Int(r.body.end.value - r.body.start.value + 1))
    ensures r.body.start.NaN? || r.body.end.NaN? ==> r.headers[ContentLength] == Number(NaN)
  {
    Reply(206, map[ContentRange := Text(RangeText(f.start, f.end, videoSize)),
                AcceptRanges := Text("bytes"),
                ContentLength := Number(f.chunkSize),
                ContentType := Text(VideoMp4)], Window(f.start, f.end))
  }

  /** The reply to `GET /videos/:filename`: 404 unless the stat names a
      regular file, 200 with the whole file when there is no `Range` header
      (or an empty one), and otherwise 206 with the parsed window. */
  function Serve(stat: Stat, range: Option<string>): (r: Reply)
    ensures r.status == 404 <==> !IsRegularFile(stat)
    ensures r.status == 200 <==> IsRegularFile(stat) && (range.None? || range.value == "")
    ensures r.status == 206 <==> IsRegularFile(stat) && range.Some? && range.value != ""
    ensures r.status == 404 ==> r.body == Message(NotFoundMessage)
    ensures r.status != 404 ==> ContentType in r.headers && r.headers[ContentType] == Text(VideoMp4)
    ensures r.status == 200 ==>
      r.body == WholeFile && ContentLength in r.headers && r.headers[ContentLength] == Number(Int(stat.size))
    ensures AcceptRanges in r.headers <==> r.status == 206
    ensures ContentRange in r.headers <==> r.status == 206
    ensures r.status == 206 ==> r == PartialReply(ParseRange(range.value, stat.size), stat.size)
  {
    if !IsRegularFile(stat) then
      Reply(404, map[], Message(NotFoundMessage))
    else if range.None? || range.value == "" then
      Reply(200, map[ContentType := Text(VideoMp4),
                  ContentLength := Number(Int(stat.size))], WholeFile)
    else
      PartialReply(ParseRange(range.value, stat.size), stat.size)
  }

  // ---------------------------------------------------------------------------
  // Properties of the handler
  // ---------------------------------------------------------------------------

  /** A failed stat or something that is not a regular file gives 404, and the
      `Range` header plays no part in the reply. */
  lemma NotFoundIgnoresRange(stat: Stat, r1: Option<string>, r2: Option<string>)
    requires !IsRegularFile(stat)
    ensures Serve(stat, r1) == Serve(stat, r2) == Reply(404, map[], Message(NotFoundMessage))
  {
  }

  /** No `Range` header, or an empty one: 200 with exactly `Content-Type` and
      `Content-Length: size`, and the whole file. */
  lemma FullContent(size: nat, range: Option<string>)
    requires range.None? || range.value == ""
    ensures Serve(Stats(true, size), range) ==
      Reply(200, map[ContentType := Text(VideoMp4),
                  ContentLength := Number(Int(size))], WholeFile)
  {
  }

  /** Digits are neither `-` nor `/`. */
  lemma NoSeparatorInDigits(d: string)
    requires AllDigits(d)
    ensures '-' !in d && '/' !in d
  {
    forall i | 0 <= i < |d| ensures d[i] != '-' && d[i] != '/' {
      assert IsDigit(d[i]);
    }
  }

  lemma NoSeparatorInDecimal(n: nat)
    ensures '-' !in Decimal(n) && '/' !in Decimal(n)
  {
    NoSeparatorInDigits(Decimal(n));
  }

  /** A header that starts with `bytes=` is split after that prefix. */
  lemma PartsAfterPrefix(rest: string)
    ensures RangeParts("bytes=" + rest) == Split(rest, '-')
  {
    ReplaceFirstAtFront("bytes=", rest, "");
    assert "" + rest == rest;
  }

  /** `bytes=A-B` with A and B free of `-` splits into A and B. */
  lemma PartsOfTwo(a: string, b: string)
    requires '-' !in a && '-' !in b
    ensures RangeParts("bytes=" + a + "-" + b) == [a, b]
  {
    var tail := a + ['-'] + b;
    assert "bytes=" + a + "-" + b == "bytes=" + tail;
    PartsAfterPrefix(tail);
    SplitTwo(a, '-', b);
  }

  /** `bytes=S-E` with digit strings S and E splits into S and E. */
  lemma PartsOfClosedRange(a: string, b: string)
    requires AllDigits(a) && AllDigits(b)
    ensures RangeParts("bytes=" + a + "-" + b) == [a, b]
  {
    NoSeparatorInDigits(a);
    NoSeparatorInDigits(b);
    PartsOfTwo(a, b);
  }

  /** The header `bytes=S-E` with S and E non-empty runs of decimal digits
      (leading zeros allowed) gives start S, end E and chunk size E - S + 1,
      whatever the file size. */
  lemma ParseClosedRange(a: string, b: string, size: nat)
    requires |a| >= 1 && AllDigits(a) && |b| >= 1 && AllDigits(b)
    ensures ParseRange("bytes=" + a + "-" + b, size) ==
      RangeFields(Int(DigitsValue(a)), Int(DigitsValue(b)), Int(DigitsValue(b) - DigitsValue(a) + 1))
  {
    PartsOfClosedRange(a, b);
    FieldsOfDigitParts(a, b, size);
  }

  /** The parts S and E, both non-empty runs of digits, give start S, end E
      and chunk size E - S + 1. */
  lemma FieldsOfDigitParts(a: string, b: string, size: nat)
    requires |a| >= 1 && AllDigits(a) && |b| >= 1 && AllDigits(b)
    ensures '-' !in a && '-' !in b
    ensures FieldsOf([a, b], size) ==
      RangeFields(Int(DigitsValue(a)), Int(DigitsValue(b)), Int(DigitsValue(b) - DigitsValue(a) + 1))
  {
    NoSeparatorInDigits(a);
    NoSeparatorInDigits(b);
    ParseIntDigitsAlone(a);
    StartOfTwoParts(a, b, size);
    ParseIntDigitsAlone(b);
    EndOfTwoParts(a, b, size);
  }

  /** The start is what `parseInt` reads from the first part, a number or
      NaN. */
  lemma StartOfTwoParts(a: string, b: string, size: nat)
    requires '-' !in a && '-' !in b
    ensures FieldsOf([a, b], size).start == ParseInt(a)
  {
  }

  /** A non-empty second part is read by `parseInt` as the end, a number or
      NaN, instead of the default. */
  lemma EndOfTwoParts(a: string, b: string, size: nat)
    requires '-' !in a && '-' !in b && b != ""
    ensures FieldsOf([a, b], size).end == ParseInt(b)
  {
  }

  /** ParseClosedRange for the canonical numerals of two naturals. */
  lemma ParseClosedDecimalRange(s: nat, e: nat, size: nat)
    ensures ParseRange("bytes=" + Decimal(s) + "-" + Decimal(e), size) ==
      RangeFields(Int(s), Int(e), Int(e - s + 1))
  {
    ParseClosedRange(Decimal(s), Decimal(e), size);
    DecimalValue(s);
    DecimalValue(e);
  }

  /** Leading zeros are read past: `bytes=0099-0100` is the window [99, 100]. */
  lemma LeadingZerosAccepted(header: string, size: nat)
    requires header == "bytes=0099-0100"
    ensures ParseRange(header, size) == RangeFields(Int(99), Int(100), Int(2))
  {
    assert header == "bytes=" + "0099" + "-" + "0100";
    assert DigitsValue("0099") == 99 by {
      assert "0099"[..3] == "009" && "009"[..2] == "00" && "00"[..1] == "0";
    }
    assert DigitsValue("0100") == 100 by {
      assert "0100"[..3] == "010" && "010"[..2] == "01" && "01"[..1] == "0";
    }
    ParseClosedRange("0099", "0100", size);
  }

  /** `bytes=A-` splits into A and an empty part, `bytes=A` into A alone,
      for any start part A without a dash. */
  lemma PartsOfOpenRange(a: string)
    requires '-' !in a
    ensures RangeParts("bytes=" + a + "-") == [a, ""]
    ensures RangeParts("bytes=" + a) == [a]
  {
    var t := a + ['-'] + "";
    assert "bytes=" + a + "-" == "bytes=" + t;
    PartsAfterPrefix(t);
    SplitFirstPiece(a, '-', "");
    assert Split("", '-') == [""];
    PartsAfterPrefix(a);
    SplitWithoutSeparator(a, '-');
  }

  /** Whatever the start part A is (leading zeros, a sign, no digits at
      all), an empty or missing part after the dash gives the default end
      size - 1, and the start is `parseInt(A)`. */
  lemma OpenEndDefault(a: string, size: nat)
    requires '-' !in a
    ensures ParseRange("bytes=" + a + "-", size) ==
      RangeFields(ParseInt(a), Int(size - 1), Add(Sub(Int(size - 1), ParseInt(a)), Int(1)))
    ensures ParseRange("bytes=" + a, size) ==
      RangeFields(ParseInt(a), Int(size - 1), Add(Sub(Int(size - 1), ParseInt(a)), Int(1)))
  {
    PartsOfOpenRange(a);
  }

  /** The header `bytes=S-` (empty end) or `bytes=S` (no dash) with a
      numeral S gives start S and the default end size - 1, so the chunk
      runs to the end of the file. */
  lemma ParseOpenRange(s: nat, size: nat)
    ensures ParseRange("bytes=" + Decimal(s) + "-", size) ==
      RangeFields(Int(s), Int(size - 1), Int(size - s))
    ensures ParseRange("bytes=" + Decimal(s), size) ==
      RangeFields(Int(s), Int(size - 1), Int(size - s))
  {
    NoSeparatorInDecimal(s);
    PartsOfOpenRange(Decimal(s));
    FieldsOfOpenDecimal(s, size);
  }

  /** The parts of `bytes=S-` and of `bytes=S` give start S and the default
      end size - 1. */
  lemma FieldsOfOpenDecimal(s: nat, size: nat)
    ensures '-' !in Decimal(s)
    ensures FieldsOf([Decimal(s), ""], size) == RangeFields(Int(s), Int(size - 1), Int(size - s))
    ensures FieldsOf([Decimal(s)], size) == RangeFields(Int(s), Int(size - 1), Int(size - s))
  {
    NoSeparatorInDecimal(s);
    ParseIntDecimalAlone(s);
  }

  /** `bytes=0500-` reads its start as 500, leading zeros and all, and runs
      to the end of the file. */
  lemma LeadingZerosOpenRange(header: string, size: nat)
    requires header == "bytes=0500-"
    ensures ParseRange(header, size) == RangeFields(Int(500), Int(size - 1), Int(size - 500))
  {
    assert header == "bytes=" + "0500" + "-";
    PartsOfOpenRange("0500");
    ParseLeadingZeros();
    assert FieldsOf(["0500", ""], size) == RangeFields(Int(500), Int(size - 1), Int(size - 500));
  }

  /** `bytes=x-` has no start digits: the start and the chunk size are NaN,
      while the end still defaults to size - 1. */
  lemma NonNumericOpenRange(header: string, size: nat)
    requires header == "bytes=x-"
    ensures ParseRange(header, size) == RangeFields(NaN, Int(size - 1), NaN)
  {
    assert header == "bytes=" + "x" + "-";
    PartsOfOpenRange("x");
    ParseIntNoDigits("x");
    assert FieldsOf(["x", ""], size) == RangeFields(NaN, Int(size - 1), NaN);
  }

  /** `bytes=+5-` is read with its sign, as start 5. */
  lemma SignedOpenRange(header: string, size: nat)
    requires header == "bytes=+5-"
    ensures ParseRange(header, size) == RangeFields(Int(5), Int(size - 1), Int(size - 5))
  {
    assert header == "bytes=" + "+5" + "-";
    PartsOfOpenRange("+5");
    ParsePlusSign();
    assert FieldsOf(["+5", ""], size) == RangeFields(Int(5), Int(size - 1), Int(size - 5));
  }

  /** `parseInt("0500")` reads past the leading zero. */
  lemma ParseLeadingZeros()
    ensures ParseInt("0500") == Int(500)
  {
    assert DigitsValue("0500") == 500 by {
      assert "0500"[..3] == "050" && "050"[..2] == "05" && "05"[..1] == "0";
    }
    ParseIntDigitsAlone("0500");
  }

  /** `parseInt("+5")` skips the sign. */
  lemma ParsePlusSign()
    ensures ParseInt("+5") == Int(5)
  {
    ParseIntPlusSign("5");
    assert "+" + "5" == "+5";
    assert DigitsValue("5") == 5 by { assert "5"[..0] == ""; }
  }

  /** The full 206 reply to `bytes=S-E`: `Content-Range: bytes S-E/size`,
      `Accept-Ranges: bytes`, `Content-Length: E - S + 1`,
      `Content-Type: video/mp4`, and the reader gets the window [S, E]. */
  lemma ServeClosedRange(s: nat, e: nat, size: nat)
    ensures Serve(Stats(true, size), Some("bytes=" + Decimal(s) + "-" + Decimal(e))) ==
      Reply(206, map[ContentRange := Text("bytes " + Decimal(s) + "-" + Decimal(e) + "/" + Decimal(size)),
                  AcceptRanges := Text("bytes"),
                  ContentLength := Number(Int(e - s + 1)),
                  ContentType := Text(VideoMp4)], Window(Int(s), Int(e)))
  {
    ParseClosedDecimalRange(s, e, size);
  }

  /** A text built as `p + a + "-" + b + "/" + c`, cut after `p`. */
  lemma TextLayout(p: string, a: string, b: string, c: string)
    ensures (p + a + "-" + b + "/" + c)[..|p|] == p
    ensures (p + a + "-" + b + "/" + c)[|p|..] == a + ['-'] + (b + ['/'] + c)
  {
    assert p + a + "-" + b + "/" + c == p + (a + ['-'] + (b + ['/'] + c));
  }

  /** The `Content-Range` text of a numeric window, after its `bytes `
      prefix, splits on `-` into the start numeral and `end/size`. */
  lemma ContentRangePieces(s: nat, e: nat, size: nat)
    ensures RangeText(Int(s), Int(e), size)[..6] == "bytes "
    ensures Split(RangeText(Int(s), Int(e), size)[6..], '-') ==
      [Decimal(s), Decimal(e) + ['/'] + Decimal(size)]
  {
    var tail := Decimal(e) + ['/'] + Decimal(size);
    TextLayout("bytes ", Decimal(s), Decimal(e), Decimal(size));
    NoSeparatorInDecimal(s);
    NoSeparatorInDecimal(e);
    NoSeparatorInDecimal(size);
    assert '-' !in tail;
    SplitTwo(Decimal(s), '-', tail);
  }

  /** The `Content-Range` text of a numeric window, read back the way the
      handler reads a `Range` header (split on `-`, then `parseInt`), gives the
      window's start and end again, and the part after `/` gives the size: the
      header names exactly the bytes that are streamed. */
  lemma ContentRangeReadBack(s: nat, e: nat, size: nat)
    ensures RangeText(Int(s), Int(e), size)[..6] == "bytes "
    ensures
      var parts := Split(RangeText(Int(s), Int(e), size)[6..], '-');
      && |parts| == 2
      && ParseInt(parts[0]) == Int(s)
      && ParseInt(parts[1]) == Int(e)
      && |Split(parts[1], '/')| == 2
      && ParseInt(Split(parts[1], '/')[1]) == Int(size)
  {
    ContentRangePieces(s, e, size);
    EndAndSizeReadBack(e, size);
    ParseIntDecimalAlone(s);
  }

  /** The window [0, -1] of `bytes=0-` on an empty file is printed as
      `bytes 0--1/0`, which splits on `-` into three parts, not two. */
  lemma EmptyFileRangeText()
    ensures RangeText(Int(0), Int(-1), 0) == "bytes 0--1/0"
    ensures Split("0--1/0", '-') == ["0", "", "1/0"]
  {
    assert Decimal(0) == "0" && Decimal(1) == "1";
    assert "0--1/0" == "0" + ['-'] + ("" + ['-'] + "1/0");
    SplitFirstPiece("0", '-', "" + ['-'] + "1/0");
    SplitFirstPiece("", '-', "1/0");
    SplitWithoutSeparator("1/0", '-');
  }

  /** `end/size` reads back, by `parseInt`, as the end, and splits on `/` into
      the two numerals. */
  lemma EndAndSizeReadBack(e: nat, size: nat)
    ensures ParseInt(Decimal(e) + ['/'] + Decimal(size)) == Int(e)
    ensures Split(Decimal(e) + ['/'] + Decimal(size), '/') == [Decimal(e), Decimal(size)]
    ensures ParseInt(Decimal(size)) == Int(size)
  {
    var afterEnd := ['/'] + Decimal(size);
    ParseIntDecimal(e, afterEnd);
    assert Decimal(e) + afterEnd == Decimal(e) + ['/'] + Decimal(size);
    NoSeparatorInDecimal(e);
    NoSeparatorInDecimal(size);
    SplitTwo(Decimal(e), '/', Decimal(size));
    ParseIntDecimalAlone(size);
  }

  /** A start that is not a number (no digits before the dash) makes the start
      and the chunk size NaN, and `NaN` is what `Content-Range` shows. */
  lemma NonNumericStart(w: string, e: nat, size: nat)
    requires forall i :: 0 <= i < |w| ==> !IsDigit(w[i]) && w[i] != '-'
    ensures ParseRange("bytes=" + w + "-" + Decimal(e), size) == RangeFields(NaN, Int(e), NaN)
  {
    assert '-' !in w;
    NoSeparatorInDecimal(e);
    PartsOfTwo(w, Decimal(e));
    ParseIntNoDigits(w);
    ParseIntDecimalAlone(e);
    assert FieldsOf([w, Decimal(e)], size) == RangeFields(NaN, Int(e), NaN);
  }

  /** An end part with no digits (`bytes=S-x`) gives a NaN end and a NaN
      chunk size, while the start is still read. */
  lemma NonNumericEnd(a: string, w: string, size: nat)
    requires '-' !in a && '-' !in w && w != ""
    requires forall i :: 0 <= i < |w| ==> !IsDigit(w[i])
    ensures ParseRange("bytes=" + a + "-" + w, size) == RangeFields(ParseInt(a), NaN, NaN)
  {
    PartsOfTwo(a, w);
    FieldsOfNonNumericEnd(a, w, size);
  }

  /** The parts A and a digit-free W give start `parseInt(A)` and a NaN end
      and chunk size. */
  lemma FieldsOfNonNumericEnd(a: string, w: string, size: nat)
    requires '-' !in a && '-' !in w && w != ""
    requires forall i :: 0 <= i < |w| ==> !IsDigit(w[i])
    ensures FieldsOf([a, w], size) == RangeFields(ParseInt(a), NaN, NaN)
  {
    ParseIntNoDigits(w);
  }

  /** `bytes=0-x` reads as start 0 with a NaN end and chunk size. */
  lemma NonNumericEndExample(header: string, size: nat)
    requires header == "bytes=0-x"
    ensures ParseRange(header, size) == RangeFields(Int(0), NaN, NaN)
  {
    assert header == "bytes=" + "0" + "-" + "x";
    NonNumericEnd("0", "x", size);
    ParseZero();
  }

  /** `parseInt("0")` is 0. */
  lemma ParseZero()
    ensures ParseInt("0") == Int(0)
  {
    ParseIntDigitsAlone("0");
    assert DigitsValue("0") == 0 by { assert "0"[..0] == ""; }
  }

  /** A NaN end is printed as the text `NaN` in `Content-Range`. */
  lemma NaNEndShownInContentRange(s: nat, size: nat)
    ensures RangeText(Int(s), NaN, size) == "bytes " + Decimal(s) + "-NaN/" + Decimal(size)
  {
  }

  /** A NaN start is printed as the text `NaN` in `Content-Range`. */
  lemma NaNShownInContentRange(e: nat, size: nat)
    ensures RangeText(NaN, Int(e), size) == "bytes NaN-" + Decimal(e) + "/" + Decimal(size)
  {
  }

  /** Nothing rejects a start at or past the end of the file: for `bytes=S-`
      with S >= size the handler still passes 206 to `writeHead`, with a
      `Content-Length` of size - S, which is zero or negative, and the window
      [S, size - 1]. */
  lemma NoUnsatisfiableRange(s: nat, size: nat)
    requires s >= size
    ensures
      var r := Serve(Stats(true, size), Some("bytes=" + Decimal(s) + "-"));
      && r.status == 206
      && r.body == Window(Int(s), Int(size - 1))
      && ContentLength in r.headers && r.headers[ContentLength] == Number(Int(size - s))
      && size - s <= 0
  {
    ParseOpenRange(s, size);
  }

  /** Nothing rejects a reversed range either: for `bytes=S-E` with E < S the
      handler passes 206 to `writeHead` with a `Content-Length` of
      E - S + 1 <= 0. */
  lemma NoReversedRangeCheck(s: nat, e: nat, size: nat)
    requires e < s
    ensures
      var r := Serve(Stats(true, size), Some("bytes=" + Decimal(s) + "-" + Decimal(e)));
      && r.status == 206
      && ContentLength in r.headers && r.headers[ContentLength] == Number(Int(e - s + 1))
      && e - s + 1 <= 0
  {
    ServeClosedRange(s, e, size);
  }

  /** `bytes=0-99` on a 1000-byte file: `Content-Range: bytes 0-99/1000`,
      `Content-Length: 100`, window [0, 99]. */
  lemma FirstHundredBytes(header: string, size: nat)
    requires header == "bytes=0-99" && size == 1000
    ensures Serve(Stats(true, size), Some(header)) ==
      Reply(206, map[ContentRange := Text("bytes 0-99/1000"),
                  AcceptRanges := Text("bytes"),
                  ContentLength := Number(Int(100)),
                  ContentType := Text(VideoMp4)], Window(Int(0), Int(99)))
  {
    FirstHundredBytesFields(header, size);
    ExampleTexts();
  }

  lemma FirstHundredBytesFields(header: string, size: nat)
    requires header == "bytes=0-99" && size == 1000
    ensures ParseRange(header, size) == RangeFields(Int(0), Int(99), Int(100))
  {
    ExampleTexts();
    ParseClosedDecimalRange(0, 99, size);
  }

  /** `bytes=500-` on a 1000-byte file: end 999 and `Content-Length: 500`. */
  lemma OpenEndedFromMiddle(header: string, size: nat)
    requires header == "bytes=500-" && size == 1000
    ensures Serve(Stats(true, size), Some(header)) ==
      Reply(206, map[ContentRange := Text("bytes 500-999/1000"),
                  AcceptRanges := Text("bytes"),
                  ContentLength := Number(Int(500)),
                  ContentType := Text(VideoMp4)], Window(Int(500), Int(999)))
  {
    OpenEndedFromMiddleFields(header, size);
    ExampleTexts();
  }

  lemma OpenEndedFromMiddleFields(header: string, size: nat)
    requires header == "bytes=500-" && size == 1000
    ensures ParseRange(header, size) == RangeFields(Int(500), Int(999), Int(500))
  {
    ExampleTexts();
    ParseOpenRange(500, size);
  }

  /** The header and `Content-Range` texts of the two examples above, written
      with the numerals they are built from. */
  lemma ExampleTexts()
    ensures "bytes=" + Decimal(0) + "-" + Decimal(99) == "bytes=0-99"
    ensures RangeText(Int(0), Int(99), 1000) == "bytes 0-99/1000"
    ensures "bytes=" + Decimal(500) + "-" == "bytes=500-"
    ensures RangeText(Int(500), Int(999), 1000) == "bytes 500-999/1000"
  {
    Decimals();
  }

  /** The numerals used by the two examples above. */
  lemma Decimals()
    ensures Decimal(0) == "0" && Decimal(99) == "99" && Decimal(500) == "500"
    ensures Decimal(999) == "999" && Decimal(1000) == "1000"
  {
    assert Decimal(5) == "5";
    assert Decimal(50) == "50";
    assert Decimal(9) == "9";
    assert Decimal(99) == "99";
    assert Decimal(1) == "1";
    assert Decimal(10) == "10";
    assert Decimal(100) == "100";
  }
}
