/**
 * The message parser of the apply-to-state replay tool,
 * src/realm/sync/apply_to_state_command.cpp.
 *
 * A message starts with its type token and a header line of space-separated
 * fields ended by a delimiter; numeric fields are read with std::from_chars,
 * words up to the next whitespace. The body that follows is split into
 * changesets, each with a header of its own and `changeset_size` bytes of data.
 * A string_view is a `string` here; the changeset bytes are opaque.
 */
module ReplayHeaders {
  import opened Wrappers

  /** The C++ types of the header fields, by the bound from_chars checks. */
  const UINT64_LIMIT: nat := 0x1_0000_0000_0000_0000
  const INT64_LIMIT: nat := 0x8000_0000_0000_0000
  const INT_LIMIT: nat := 0x8000_0000

  /** A header field: a number below `limit` (its integer type), or a word. */
  datatype Field = Number(limit: nat) | Word

  /** A parsed argument; Unset is an argument the parser never assigned. */
  datatype Arg = Unset | Num(n: nat) | Text(s: string)

  /** What parsing a header line gives: the arguments and the rest of the view. */
  datatype Outcome = Parsed(args: seq<Arg>, rest: string) | Failed | ReadPastEnd

  /** What parsing one field gives: its argument and the view after it. */
  datatype ValueScan = Scanned(arg: Arg, rest: string) | NoValue

  predicate IsDigit(c: char)
  {
    '0' <= c <= '9'
  }

  /** std::isspace in the C locale. */
  predicate IsSpace(c: char)
  {
    c == ' ' || c == '\t' || c == '\n' || c == '\U{000B}' || c == '\U{000C}' || c == '\r'
  }

  predicate AllDigits(d: string)
  {
    forall i :: 0 <= i < |d| ==> IsDigit(d[i])
  }

  /** The end of the run of decimal digits that starts at index `i` of `s`. */
  function DigitRunFrom(s: string, i: nat): (k: nat)
    requires i <= |s|
    ensures i <= k <= |s| && (k < |s| ==> !IsDigit(s[k]))
    decreases |s| - i
  {
    if i == |s| || !IsDigit(s[i]) then i else DigitRunFrom(s, i + 1)
  }

  /** Every character of the run is a digit, so the run is the longest digit prefix. */
  lemma {:induction false} DigitRunDigits(s: string, i: nat)
    requires i <= |s|
    ensures forall j :: i <= j < DigitRunFrom(s, i) ==> IsDigit(s[j])
    decreases |s| - i
  {
    if i < |s| && IsDigit(s[i]) {
      DigitRunDigits(s, i + 1);
    }
  }

  function DigitValue(c: char): nat
  {
    if IsDigit(c) then (c - '0') as nat else 0
  }

  /** The number the first `k` characters of `s`, decimal digits, denote. */
  function DigitsValue(s: string, k: nat): nat
    requires k <= |s|
  {
    if k == 0 then 0 else 10 * DigitsValue(s, k - 1) + DigitValue(s[k - 1])
  }

  /**
   * std::from_chars for an integer type below `limit`: the digit run is consumed;
   * the value is assigned only when there are digits and it fits the type.
   */
  function FromChars(s: string, limit: nat): (r: (Option<nat>, nat))
    ensures r.1 == DigitRunFrom(s, 0) && (r.0.Some? ==> r.1 > 0 && r.0.value < limit)
  {
    var k := DigitRunFrom(s, 0);
    if k == 0 then (None, 0)
    else
      var v := DigitsValue(s, k);
      if v < limit then (Some(v), k) else (None, k)
  }

  /** The index of the first whitespace character of `s` from index `i`, or |s|. */
  function FirstSpaceFrom(s: string, i: nat): (w: nat)
    requires i <= |s|
    ensures i <= w <= |s| && (w < |s| ==> IsSpace(s[w]))
    decreases |s| - i
  {
    if i == |s| || IsSpace(s[i]) then i else FirstSpaceFrom(s, i + 1)
  }

  lemma {:induction false} FirstSpaceFirst(s: string, i: nat)
    requires i <= |s|
    ensures forall j :: i <= j < FirstSpaceFrom(s, i) ==> !IsSpace(s[j])
    decreases |s| - i
  {
    if i < |s| && !IsSpace(s[i]) {
      FirstSpaceFirst(s, i + 1);
    }
  }

  /**
   * The string_view overload of parse_header_value: no whitespace fails; else the
   * word is everything before the first whitespace, which starts the rest.
   */
  function ScanWord(sv: string): (r: ValueScan)
    ensures r.NoValue? <==> FirstSpaceFrom(sv, 0) == |sv|
    ensures r.Scanned? ==> r.arg.Text? && sv == r.arg.s + r.rest && |r.rest| > 0 && IsSpace(r.rest[0])
  {
    var w := FirstSpaceFrom(sv, 0);
    if w == |sv| then NoValue
    else
      assert sv == sv[..w] + sv[w..];
      Scanned(Text(sv[..w]), sv[w..])
  }

  /** The word field fails exactly without whitespace; the word holds none. */
  lemma ScanWordSpec(sv: string)
    ensures ScanWord(sv).NoValue? <==> forall i :: 0 <= i < |sv| ==> !IsSpace(sv[i])
    ensures ScanWord(sv).Scanned? ==> forall i :: 0 <= i < |ScanWord(sv).arg.s| ==> !IsSpace(ScanWord(sv).arg.s[i])
  {
    FirstSpaceFirst(sv, 0);
    var r := ScanWord(sv);
    if r.Scanned? {
      assert forall i :: 0 <= i < |r.arg.s| ==> r.arg.s[i] == sv[i];
    }
  }

  /**
   * The integral overload of parse_header_value as written: from_chars never
   * returns a null pointer, so the failure branch is dead and a field without a
   * usable value leaves the argument unset.
   */
  function ScanAsWritten(sv: string, f: Field): (r: ValueScan)
    ensures r.Scanned? ==> (r.arg == Unset || Fits(r.arg, f)) && |r.rest| <= |sv|
    ensures f.Number? ==> r.Scanned? && r.rest == sv[DigitRunFrom(sv, 0)..]
    ensures f.Number? ==> (r.arg == Unset <==> DigitRunFrom(sv, 0) == 0 || DigitsValue(sv, DigitRunFrom(sv, 0)) >= f.limit)
    ensures f.Number? && r.arg.Num? ==> r.arg.n == DigitsValue(sv, DigitRunFrom(sv, 0))
    ensures f.Word? ==> (r.NoValue? <==> forall i :: 0 <= i < |sv| ==> !IsSpace(sv[i]))
    ensures f.Word? && r.Scanned? ==> r.arg.Text? && sv == r.arg.s + r.rest && |r.rest| > 0 && IsSpace(r.rest[0])
  {
    match f
    case Word => ScanWordSpec(sv); ScanWord(sv)
    case Number(limit) =>
      var (v, k) := FromChars(sv, limit);
      Scanned(if v.Some? then Num(v.value) else Unset, sv[k..])
  }

  /** `n` arguments that were never assigned. */
  function Unsets(n: nat): (r: seq<Arg>)
    ensures |r| == n && forall i :: 0 <= i < n ==> r[i] == Unset
  {
    seq(n, _ => Unset)
  }

  /**
   * parse_header_element as written: after each field a space moves on to the
   * next field, the end delimiter ends the line at once (whatever fields are left
   * stay unset), anything else fails; a number that ends the view makes the code
   * read the first character of an empty view (ReadPastEnd).
   */
  function ParseElementAsWritten(sv: string, delim: char, fields: seq<Field>): (r: Outcome)
    ensures |fields| > 0 && |sv| == 0 ==> r.Failed?
    ensures r.Parsed? ==> |r.args| == |fields| && |r.rest| <= |sv|
                          && (|fields| > 0 ==> |r.rest| < |sv|)
                          && forall i :: 0 <= i < |fields| ==> r.args[i] == Unset || Fits(r.args[i], fields[i])
    decreases |fields|
  {
    if |fields| == 0 then Parsed([], sv)
    else if |sv| == 0 then Failed
    else
      match ScanAsWritten(sv, fields[0])
      case NoValue => Failed
      case Scanned(arg, rest) =>
        if |rest| == 0 then ReadPastEnd
        else if rest[0] == ' ' then
          match ParseElementAsWritten(rest[1..], delim, fields[1..])
          case Parsed(args, r) => Parsed([arg] + args, r)
          case o => o
        else if rest[0] == delim then Parsed([arg] + Unsets(|fields| - 1), rest[1..])
        else Failed
  }

  /** An argument of the kind its field asks for. */
  predicate Fits(a: Arg, f: Field)
  {
    match f
    case Number(limit) => a.Num? && a.n < limit
    case Word => a.Text?
  }

  /** parse_header_value as intended: a numeric field needs a value of its type. */
  function ScanValue(sv: string, f: Field): (r: ValueScan)
    ensures r.Scanned? ==> Fits(r.arg, f) && |r.rest| <= |sv|
  {
    match f
    case Word => ScanWord(sv)
    case Number(limit) =>
      var (v, k) := FromChars(sv, limit);
      if v.Some? then Scanned(Num(v.value), sv[k..]) else NoValue
  }

  /**
   * parse_header_element as intended: every field must have a value, the end
   * delimiter is accepted only after the last field, and a line that ends right
   * after a value fails instead of reading past the end.
   */
  function ParseElement(sv: string, delim: char, fields: seq<Field>): (r: Outcome)
    ensures !r.ReadPastEnd?
    decreases |fields|
  {
    if |fields| == 0 then Parsed([], sv)
    else if |sv| == 0 then Failed
    else
      var scan := ScanValue(sv, fields[0]);
      if scan.NoValue? || |scan.rest| == 0 then Failed
      else if scan.rest[0] == ' ' then
        var next := ParseElement(scan.rest[1..], delim, fields[1..]);
        if next.Parsed? then Parsed([scan.arg] + next.args, next.rest) else Failed
      else if scan.rest[0] == delim && |fields| == 1 then Parsed([scan.arg], scan.rest[1..])
      else Failed
  }

  /**
   * A parsed header line has one argument per field, each of its kind, and
   * leaves a strictly shorter rest of the view.
   */
  lemma {:induction false} ParsedShape(sv: string, delim: char, fields: seq<Field>)
    ensures var r := ParseElement(sv, delim, fields);
            r.Parsed? ==> |r.args| == |fields| && |r.rest| <= |sv|
                          && (forall i :: 0 <= i < |fields| ==> Fits(r.args[i], fields[i]))
                          && (|fields| > 0 ==> |r.rest| < |sv|)
    decreases |fields|
  {
    var r := ParseElement(sv, delim, fields);
    if |fields| > 0 && r.Parsed? {
      var scan := ScanValue(sv, fields[0]);
      if scan.rest[0] == ' ' {
        var next := ParseElement(scan.rest[1..], delim, fields[1..]);
        ParsedShape(scan.rest[1..], delim, fields[1..]);
        assert forall i :: 1 <= i < |fields| ==> r.args[i] == next.args[i - 1] && fields[i] == fields[1..][i - 1];
      }
    }
  }

  /** A field followed by a space: its argument in front of the fields after it. */
  lemma FieldThenSpace(sv: string, delim: char, fields: seq<Field>)
    requires |fields| > 0 && |sv| > 0
    requires ScanValue(sv, fields[0]).Scanned? && |ScanValue(sv, fields[0]).rest| > 0
    requires ScanValue(sv, fields[0]).rest[0] == ' '
    requires ParseElement(ScanValue(sv, fields[0]).rest[1..], delim, fields[1..]).Parsed?
    ensures ParseElement(sv, delim, fields)
            == Parsed([ScanValue(sv, fields[0]).arg] + ParseElement(ScanValue(sv, fields[0]).rest[1..], delim, fields[1..]).args,
                      ParseElement(ScanValue(sv, fields[0]).rest[1..], delim, fields[1..]).rest)
  {
  }

  /** One number followed by a space, then the fields after it. */
  lemma NumberThenSpace(n: nat, more: string, delim: char, fields: seq<Field>)
    requires |fields| > 0 && fields[0].Number? && n < fields[0].limit
    requires ParseElement(more, delim, fields[1..]).Parsed?
    ensures ParseElement(Decimal(n) + " " + more, delim, fields)
            == Parsed([Num(n)] + ParseElement(more, delim, fields[1..]).args,
                      ParseElement(more, delim, fields[1..]).rest)
  {
    var sv := Decimal(n) + " " + more;
    assert sv == Decimal(n) + (" " + more);
    DecimalScan(n, " " + more, fields[0].limit);
    assert (" " + more)[1..] == more;
    FieldThenSpace(sv, delim, fields);
  }

  /** The last number followed by the end delimiter. */
  lemma NumberThenDelimiter(n: nat, tail: string, delim: char, fields: seq<Field>)
    requires |fields| == 1 && fields[0].Number? && n < fields[0].limit && !IsDigit(delim)
    ensures ParseElement(Decimal(n) + [delim] + tail, delim, fields) == Parsed([Num(n)], tail)
  {
    assert Decimal(n) + [delim] + tail == Decimal(n) + ([delim] + tail);
    DecimalScan(n, [delim] + tail, fields[0].limit);
    assert ([delim] + tail)[1..] == tail;
    assert fields[1..] == [];
  }

  /** A field followed by a space with no fields left succeeds without the end delimiter. */
  lemma SpaceEndsLastField(n: nat, limit: nat, delim: char, tail: string)
    requires n < limit
    ensures ParseElement(Decimal(n) + " " + tail, delim, [Number(limit)]) == Parsed([Num(n)], tail)
  {
    DecimalScan(n, " " + tail, limit);
    assert Decimal(n) + " " + tail == Decimal(n) + (" " + tail);
    assert (" " + tail)[1..] == tail;
  }

  // ---- Decimal text and the round trip of a header line ----

  /** The decimal digits of `n`, without leading zeros. */
  function Decimal(n: nat): (d: string)
    ensures |d| > 0 && AllDigits(d)
  {
    if n < 10 then [('0' as int + n) as char]
    else Decimal(n / 10) + [('0' as int + n % 10) as char]
  }

  /** The value of a prefix does not depend on what follows it. */
  lemma {:induction false} DigitsValuePrefix(s: string, t: string, k: nat)
    requires k <= |s|
    ensures DigitsValue(s + t, k) == DigitsValue(s, k)
  {
    if k > 0 {
      DigitsValuePrefix(s, t, k - 1);
      assert (s + t)[k - 1] == s[k - 1];
    }
  }

  lemma {:induction false} DecimalValue(n: nat)
    ensures DigitsValue(Decimal(n), |Decimal(n)|) == n
  {
    if n >= 10 {
      var d := Decimal(n / 10);
      var c := ('0' as int + n % 10) as char;
      assert Decimal(n) == d + [c];
      DigitsValuePrefix(d, [c], |d|);
      DecimalValue(n / 10);
    }
  }

  /** The digit run of digits followed by a non-digit is exactly those digits. */
  lemma {:induction false} DigitRunOf(d: string, tail: string, i: nat)
    requires AllDigits(d) && i <= |d|
    requires |tail| == 0 || !IsDigit(tail[0])
    ensures DigitRunFrom(d + tail, i) == |d|
    decreases |d| - i
  {
    if i < |d| {
      assert (d + tail)[i] == d[i];
      DigitRunOf(d, tail, i + 1);
    } else if |tail| > 0 {
      assert (d + tail)[i] == tail[0];
    }
  }

  /** Scanning the decimal text of a number in range gives the number. */
  lemma DecimalScan(n: nat, tail: string, limit: nat)
    requires n < limit
    requires |tail| == 0 || !IsDigit(tail[0])
    ensures ScanValue(Decimal(n) + tail, Number(limit)) == Scanned(Num(n), tail)
  {
    var d := Decimal(n);
    DigitRunOf(d, tail, 0);
    DigitsValuePrefix(d, tail, |d|);
    assert (d + tail)[|d|..] == tail;
    DecimalValue(n);
  }

  /** The numbers written in decimal, joined by single spaces, ended by `delim`. */
  function HeaderLine(ns: seq<nat>, delim: char): string
    requires |ns| > 0
  {
    if |ns| == 1 then Decimal(ns[0]) + [delim]
    else Decimal(ns[0]) + " " + HeaderLine(ns[1..], delim)
  }

  /** Number fields for the values `ns`, each of its type. */
  predicate InRange(ns: seq<nat>, fields: seq<Field>)
  {
    |ns| == |fields| && forall i :: 0 <= i < |ns| ==> fields[i].Number? && ns[i] < fields[i].limit
  }

  function Nums(ns: seq<nat>): (r: seq<Arg>)
    ensures |r| == |ns| && forall i :: 0 <= i < |ns| ==> r[i] == Num(ns[i])
  {
    seq(|ns|, i requires 0 <= i < |ns| => Num(ns[i]))
  }

  lemma NumsCons(ns: seq<nat>)
    requires |ns| > 0
    ensures Nums(ns) == [Num(ns[0])] + Nums(ns[1..])
  {
    var a, b := Nums(ns), [Num(ns[0])] + Nums(ns[1..]);
    forall i | 0 <= i < |ns| ensures a[i] == b[i] {
      if i > 0 {
        assert b[i] == Nums(ns[1..])[i - 1];
      }
    }
  }

  /**
   * Round trip of parse_header_line: non-negative numbers written in decimal,
   * joined by single spaces and followed by the end delimiter, parse back to
   * those numbers, and the rest is exactly the text after the delimiter.
   */
  lemma {:induction false} HeaderLineRoundTrip(ns: seq<nat>, fields: seq<Field>, delim: char, tail: string)
    requires |ns| > 0 && InRange(ns, fields) && !IsDigit(delim)
    ensures ParseElement(HeaderLine(ns, delim) + tail, delim, fields) == Parsed(Nums(ns), tail)
    decreases |ns|
  {
    if |ns| == 1 {
      assert HeaderLine(ns, delim) + tail == Decimal(ns[0]) + [delim] + tail;
      NumberThenDelimiter(ns[0], tail, delim, fields);
      assert Nums(ns) == [Num(ns[0])];
    } else {
      var more := HeaderLine(ns[1..], delim) + tail;
      assert HeaderLine(ns, delim) + tail == Decimal(ns[0]) + " " + more;
      HeaderLineRoundTrip(ns[1..], fields[1..], delim, tail);
      NumberThenSpace(ns[0], more, delim, fields);
      NumsCons(ns);
    }
  }

  /**
   * Wherever the corrected parser succeeds, the parser as written gives the same
   * arguments and rest: the two differ only on lines the corrected one rejects.
   */
  lemma {:induction false} AsWrittenAgrees(sv: string, delim: char, fields: seq<Field>)
    ensures ParseElement(sv, delim, fields).Parsed? ==>
              ParseElementAsWritten(sv, delim, fields) == ParseElement(sv, delim, fields)
    decreases |fields|
  {
    if |fields| > 0 && |sv| > 0 && ParseElement(sv, delim, fields).Parsed? {
      var scan := ScanValue(sv, fields[0]);
      if scan.rest[0] == ' ' {
        AsWrittenAgrees(scan.rest[1..], delim, fields[1..]);
      } else {
        assert Unsets(0) == [];
      }
    }
  }

  /**
   * The round trip of parse_header_line for the parser as written: in-range numbers
   * joined by spaces and ended by the delimiter parse back to those numbers,
   * leaving exactly the text after the delimiter.
   */
  lemma AsWrittenRoundTrip(ns: seq<nat>, fields: seq<Field>, delim: char, tail: string)
    requires |ns| > 0 && InRange(ns, fields) && !IsDigit(delim)
    ensures ParseElementAsWritten(HeaderLine(ns, delim) + tail, delim, fields) == Parsed(Nums(ns), tail)
  {
    HeaderLineRoundTrip(ns, fields, delim, tail);
    AsWrittenAgrees(HeaderLine(ns, delim) + tail, delim, fields);
  }

  // ---- Findings: the parser as written ----

  /** A numeric field with no digits is accepted and its argument left unset. */
  lemma EmptyNumberAccepted()
    ensures ParseElementAsWritten(" 7\n", '\n', [Number(UINT64_LIMIT), Number(UINT64_LIMIT)])
            == Parsed([Unset, Num(7)], "")
    ensures ParseElement(" 7\n", '\n', [Number(UINT64_LIMIT), Number(UINT64_LIMIT)]) == Failed
  {
    assert DigitRunFrom(" 7\n", 0) == 0;
    assert DigitRunFrom("7\n", 0) == 1;
    assert DigitsValue("7\n", 1) == 7;
    assert " 7\n"[0..] == " 7\n";
  }

  /** A number that ends the view makes the parser read past its end. */
  lemma NumberAtEndReadsPastEnd()
    ensures ParseElementAsWritten("7", '\n', [Number(UINT64_LIMIT)]) == ReadPastEnd
    ensures ParseElement("7", '\n', [Number(UINT64_LIMIT)]) == Failed
  {
    assert DigitRunFrom("7", 0) == 1;
    assert DigitsValue("7", 1) == 7;
  }

  /** The end delimiter is accepted before the last field; the others stay unset. */
  lemma EarlyDelimiterAccepted()
    ensures ParseElementAsWritten("7\n", '\n', [Number(UINT64_LIMIT), Number(UINT64_LIMIT)])
            == Parsed([Num(7), Unset], "")
    ensures ParseElement("7\n", '\n', [Number(UINT64_LIMIT), Number(UINT64_LIMIT)]) == Failed
  {
    assert DigitRunFrom("7\n", 0) == 1;
    assert DigitsValue("7\n", 1) == 7;
  }

  /**
   * A numeric field whose digits do not fit its type is accepted with its
   * argument left unset: from_chars reports the overflow only through its error code.
   */
  lemma OutOfRangeAccepted(n: nat, limit: nat)
    requires n >= limit
    ensures ParseElementAsWritten(Decimal(n) + "\n", '\n', [Number(limit)]) == Parsed([Unset], "")
    ensures ParseElement(Decimal(n) + "\n", '\n', [Number(limit)]) == Failed
  {
    var d := Decimal(n);
    DigitRunOf(d, "\n", 0);
    DigitsValuePrefix(d, "\n", |d|);
    DecimalValue(n);
    assert (d + "\n")[|d|..] == "\n";
  }

  // ---- Message bodies and messages ----

  /** MessageBody: the body bytes and the view after the message. */
  datatype Body = Body(body: string, remaining: string)

  /**
   * MessageBody::parse. A compressed body takes `compressedSize` bytes of the
   * view, and `inflated` is what decompress made of them (None: it failed); an
   * uncompressed body is the next `uncompressedSize` bytes.
   */
  function ParseBody(sv: string, compressedSize: nat, uncompressedSize: nat, compressed: bool,
                     inflated: Option<string>): (r: Option<Body>)
    ensures compressed ==> (r.Some? <==> |sv| >= compressedSize && inflated.Some?)
    ensures compressed && r.Some? ==> r.value.remaining == sv[compressedSize..] && r.value.body == inflated.value
    ensures !compressed ==> (r.Some? <==> |sv| >= uncompressedSize)
    ensures !compressed && r.Some? ==> (r.value.body + r.value.remaining == sv
                                       && |r.value.body| == uncompressedSize)
  {
    if compressed then
      if |sv| < compressedSize || inflated.None? then None
      else Some(Body(inflated.value, sv[compressedSize..]))
    else if |sv| < uncompressedSize then None
    else
      assert sv[..uncompressedSize] + sv[uncompressedSize..] == sv;
      Some(Body(sv[..uncompressedSize], sv[uncompressedSize..]))
  }

  /** A changeset of a body: its header values (without the size) and its bytes. */
  datatype Changeset = Changeset(header: seq<nat>, data: string)

  function NumsOf(args: seq<Arg>): (ns: seq<nat>)
    requires forall i :: 0 <= i < |args| ==> args[i].Num?
    ensures |ns| == |args| && forall i :: 0 <= i < |args| ==> ns[i] == args[i].n
  {
    seq(|args|, i requires 0 <= i < |args| => args[i].n)
  }

  /** Number fields of the given limits. */
  function NumberFields(limits: seq<nat>): (fs: seq<Field>)
    ensures |fs| == |limits| && forall i :: 0 <= i < |limits| ==> fs[i] == Number(limits[i])
  {
    seq(|limits|, i requires 0 <= i < |limits| => Number(limits[i]))
  }

  /**
   * The changesets of a body: each has a header of numbers ended by a space,
   * whose last number is the size of the data that follows.
   */
  function SplitChangesets(body: string, limits: seq<nat>): Option<seq<Changeset>>
    requires |limits| > 0
    decreases |body|
  {
    if |body| == 0 then Some([])
    else
      match NextChangeset(body, limits)
      case None => None
      case Some((c, rest)) => Prepend([c], SplitChangesets(rest, limits))
  }

  /**
   * One changeset off the front of a non-empty body: its header, then as many
   * bytes as its size says; the view after it is shorter.
   */
  function NextChangeset(view: string, limits: seq<nat>): (r: Option<(Changeset, string)>)
    requires |limits| > 0
    ensures r.Some? ==> |r.value.1| < |view| && |r.value.0.header| == |limits| - 1
  {
    var header := ParseElement(view, ' ', NumberFields(limits));
    ParsedShape(view, ' ', NumberFields(limits));
    if !header.Parsed? then None
    else
      var ns := NumsOf(header.args);
      var size := ns[|ns| - 1];
      if size > |header.rest| then None
      else Some((Changeset(ns[..|ns| - 1], header.rest[..size]), header.rest[size..]))
  }

  /** Changesets already split off, in front of the split of the rest. */
  function Prepend(done: seq<Changeset>, more: Option<seq<Changeset>>): Option<seq<Changeset>>
  {
    if more.Some? then Some(done + more.value) else None
  }

  /** A body made of changesets: each header in decimal, a space, then the data. */
  function EncodeChangesets(cs: seq<Changeset>): string
  {
    if |cs| == 0 then ""
    else HeaderLine(cs[0].header + [|cs[0].data|], ' ') + cs[0].data + EncodeChangesets(cs[1..])
  }

  /** Changesets whose header values fit their fields. */
  predicate WellFormed(cs: seq<Changeset>, limits: seq<nat>)
  {
    forall i :: 0 <= i < |cs| ==> InRange(cs[i].header + [|cs[i].data|], NumberFields(limits))
  }

  /** The encoding of one changeset is split off again, leaving what follows. */
  lemma NextOfEncoded(c: Changeset, more: string, limits: seq<nat>)
    requires |limits| > 0 && InRange(c.header + [|c.data|], NumberFields(limits))
    ensures NextChangeset(HeaderLine(c.header + [|c.data|], ' ') + c.data + more, limits) == Some((c, more))
  {
    var ns := c.header + [|c.data|];
    var view := HeaderLine(ns, ' ') + c.data + more;
    assert view == HeaderLine(ns, ' ') + (c.data + more);
    HeaderLineRoundTrip(ns, NumberFields(limits), ' ', c.data + more);
    assert NumsOf(Nums(ns)) == ns;
    assert ns[..|ns| - 1] == c.header;
    assert (c.data + more)[..|c.data|] == c.data;
    assert (c.data + more)[|c.data|..] == more;
  }

  /** Splitting an encoded body gives back its changesets. */
  lemma {:induction false} SplitRoundTrip(cs: seq<Changeset>, limits: seq<nat>)
    requires |limits| > 0 && WellFormed(cs, limits)
    ensures SplitChangesets(EncodeChangesets(cs), limits) == Some(cs)
    decreases |cs|
  {
    if |cs| > 0 {
      var more := EncodeChangesets(cs[1..]);
      var body := EncodeChangesets(cs);
      assert body == HeaderLine(cs[0].header + [|cs[0].data|], ' ') + cs[0].data + more;
      NextOfEncoded(cs[0], more, limits);
      SplitOne(body, limits, cs[0], more);
      WellFormedTail(cs, limits);
      SplitRoundTrip(cs[1..], limits);
      assert cs == [cs[0]] + cs[1..];
    }
  }

  /** A body whose first changeset is split off is that changeset before the split of the rest. */
  lemma SplitOne(body: string, limits: seq<nat>, c: Changeset, rest: string)
    requires |limits| > 0 && NextChangeset(body, limits) == Some((c, rest))
    ensures SplitChangesets(body, limits) == Prepend([c], SplitChangesets(rest, limits))
  {
  }

  /** Well-formed changesets stay well formed without their first. */
  lemma WellFormedTail(cs: seq<Changeset>, limits: seq<nat>)
    requires |cs| > 0 && WellFormed(cs, limits)
    ensures WellFormed(cs[1..], limits)
  {
    forall i | 0 <= i < |cs[1..]| ensures InRange(cs[1..][i].header + [|cs[1..][i].data|], NumberFields(limits)) {
      assert cs[1..][i] == cs[i + 1];
    }
  }

  lemma PrependAppend(done: seq<Changeset>, c: Changeset, more: Option<seq<Changeset>>)
    ensures Prepend(done, Prepend([c], more)) == Prepend(done + [c], more)
  {
    if more.Some? {
      assert done + ([c] + more.value) == (done + [c]) + more.value;
    }
  }

  /**
   * The changeset loop of DownloadMessage::parse and UploadMessage::parse: read a
   * header, fail when it does not parse or its size exceeds what is left, take the
   * data, move past it.
   */
  method SplitBody(body: string, limits: seq<nat>) returns (r: Option<seq<Changeset>>)
    requires |limits| > 0
    ensures r == SplitChangesets(body, limits)
  {
    var bodyView := body;
    var changesets: seq<Changeset> := [];
    if SplitChangesets(body, limits).Some? {
      assert [] + SplitChangesets(body, limits).value == SplitChangesets(body, limits).value;
    }
    while |bodyView| > 0
      invariant SplitChangesets(body, limits) == Prepend(changesets, SplitChangesets(bodyView, limits))
      decreases |bodyView|
    {
      var next := NextChangeset(bodyView, limits);
      if next.None? {
        return None;
      }
      var (changeset, rest) := next.value;
      PrependAppend(changesets, changeset, SplitChangesets(rest, limits));
      changesets := changesets + [changeset];
      bodyView := rest;
    }
    assert changesets + [] == changesets;
    return Some(changesets);
  }

  /** Header fields of an ident message: session ident, file ident, salt. */
  const IDENT_LIMITS: seq<nat> := [UINT64_LIMIT, UINT64_LIMIT, INT64_LIMIT]
  /**
   * Header fields of a download message: session ident, download server version,
   * last integrated client version, latest server version and its salt, upload
   * client version, last integrated server version, downloadable bytes,
   * is_body_compressed, uncompressed and compressed body size.
   */
  const DOWNLOAD_LIMITS: seq<nat> := [UINT64_LIMIT, UINT64_LIMIT, UINT64_LIMIT, UINT64_LIMIT, INT64_LIMIT,
                                      UINT64_LIMIT, UINT64_LIMIT, UINT64_LIMIT, INT_LIMIT, UINT64_LIMIT,
                                      UINT64_LIMIT]
  /** Remote version, last integrated local version, timestamp, file ident, original size, size. */
  const DOWNLOAD_CHANGESET_LIMITS: seq<nat> := [UINT64_LIMIT, UINT64_LIMIT, UINT64_LIMIT, UINT64_LIMIT,
                                                UINT64_LIMIT, UINT64_LIMIT]
  /**
   * Header fields of an upload message: session ident, is_body_compressed,
   * uncompressed and compressed body size, client version, last integrated server
   * version, locked server version.
   */
  const UPLOAD_LIMITS: seq<nat> := [UINT64_LIMIT, INT_LIMIT, UINT64_LIMIT, UINT64_LIMIT, UINT64_LIMIT,
                                    UINT64_LIMIT, UINT64_LIMIT]
  /** Version, last integrated remote version, timestamp, file ident, size. */
  const UPLOAD_CHANGESET_LIMITS: seq<nat> := [UINT64_LIMIT, UINT64_LIMIT, UINT64_LIMIT, UINT64_LIMIT,
                                              UINT64_LIMIT]

  datatype Message =
    | Ident(header: seq<nat>)
    | Download(header: seq<nat>, changesets: seq<Changeset>)
    | Upload(header: seq<nat>, changesets: seq<Changeset>)

  /** ServerIdentMessage::parse: one header line ended by a newline. */
  function ParseIdent(sv: string): (r: Option<(Message, string)>)
    ensures r.Some? ==> r.value.0.Ident? && |r.value.0.header| == 3
  {
    var header := ParseElement(sv, '\n', NumberFields(IDENT_LIMITS));
    ParsedShape(sv, '\n', NumberFields(IDENT_LIMITS));
    if header.Parsed? then Some((Ident(NumsOf(header.args)), header.rest)) else None
  }

  /**
   * `m` is what DownloadMessage::parse reads from `sv`: an 11-field header line
   * ended by a newline, the body it sizes, and the changesets of that body.
   */
  predicate DownloadParsed(sv: string, inflated: Option<string>, m: (Message, string))
  {
    var header := ParseElement(sv, '\n', NumberFields(DOWNLOAD_LIMITS));
    var h := m.0.header;
    m.0.Download? && |h| == 11 && header.Parsed? && header.args == Nums(h)
    && (var b := ParseBody(header.rest, h[10], h[9], h[8] != 0, inflated);
        b.Some? && b.value.remaining == m.1
        && SplitChangesets(b.value.body, DOWNLOAD_CHANGESET_LIMITS) == Some(m.0.changesets))
  }

  /**
   * `m` is what UploadMessage::parse reads from `sv`: a 7-field header line ended
   * by a newline, the body it sizes, and the changesets of that body.
   */
  predicate UploadParsed(sv: string, inflated: Option<string>, m: (Message, string))
  {
    var header := ParseElement(sv, '\n', NumberFields(UPLOAD_LIMITS));
    var h := m.0.header;
    m.0.Upload? && |h| == 7 && header.Parsed? && header.args == Nums(h)
    && (var b := ParseBody(header.rest, h[3], h[2], h[1] != 0, inflated);
        b.Some? && b.value.remaining == m.1
        && SplitChangesets(b.value.body, UPLOAD_CHANGESET_LIMITS) == Some(m.0.changesets))
  }

  /** DownloadMessage::parse: header line, body, then the changesets of the body. */
  method ParseDownload(sv: string, inflated: Option<string>) returns (r: Option<(Message, string)>)
    ensures r.Some? ==> DownloadParsed(sv, inflated, r.value)
  {
    var header := ParseElement(sv, '\n', NumberFields(DOWNLOAD_LIMITS));
    if !header.Parsed? {
      return None;
    }
    ParsedShape(sv, '\n', NumberFields(DOWNLOAD_LIMITS));
    var h := NumsOf(header.args);
    assert header.args == Nums(h);
    var body := ParseBody(header.rest, h[10], h[9], h[8] != 0, inflated);
    if body.None? {
      return None;
    }
    var changesets := SplitBody(body.value.body, DOWNLOAD_CHANGESET_LIMITS);
    if changesets.None? {
      return None;
    }
    return Some((Download(h, changesets.value), body.value.remaining));
  }

  /** UploadMessage::parse: header line, body, then the changesets of the body. */
  method ParseUpload(sv: string, inflated: Option<string>) returns (r: Option<(Message, string)>)
    ensures r.Some? ==> UploadParsed(sv, inflated, r.value)
  {
    var header := ParseElement(sv, '\n', NumberFields(UPLOAD_LIMITS));
    if !header.Parsed? {
      return None;
    }
    ParsedShape(sv, '\n', NumberFields(UPLOAD_LIMITS));
    var h := NumsOf(header.args);
    assert header.args == Nums(h);
    var body := ParseBody(header.rest, h[3], h[2], h[1] != 0, inflated);
    if body.None? {
      return None;
    }
    var changesets := SplitBody(body.value.body, UPLOAD_CHANGESET_LIMITS);
    if changesets.None? {
      return None;
    }
    return Some((Upload(h, changesets.value), body.value.remaining));
  }

  /**
   * parse_message: the type token, ended by a space, picks the parser for the
   * rest; any other token gives nothing.
   */
  method ParseMessage(sv: string, inflated: Option<string>) returns (r: Option<(Message, string)>)
    ensures r.Some? ==> var token := ParseElement(sv, ' ', [Word]);
                        token.Parsed? && |token.args| == 1 && token.args[0].Text?
                        && ((token.args[0].s == "download" && r.value.0.Download?)
                            || (token.args[0].s == "upload" && r.value.0.Upload?)
                            || (token.args[0].s == "ident" && r.value.0.Ident?))
    ensures r.Some? && r.value.0.Ident? ==> r == ParseIdent(ParseElement(sv, ' ', [Word]).rest)
    ensures r.Some? && r.value.0.Download? ==> DownloadParsed(ParseElement(sv, ' ', [Word]).rest, inflated, r.value)
    ensures r.Some? && r.value.0.Upload? ==> UploadParsed(ParseElement(sv, ' ', [Word]).rest, inflated, r.value)
    ensures var token := ParseElement(sv, ' ', [Word]);
            token.Parsed? && |token.args| == 1 && token.args[0].Text? && token.args[0].s == "ident"
            ==> r == ParseIdent(token.rest)
    ensures var token := ParseElement(sv, ' ', [Word]);
            (!token.Parsed? || |token.args| != 1 || !token.args[0].Text?
             || token.args[0].s !in {"download", "upload", "ident"}) ==> r.None?
  {
    var typeToken := ParseElement(sv, ' ', [Word]);
    if !typeToken.Parsed? {
      return None;
    }
    ParsedShape(sv, ' ', [Word]);
    var messageType := typeToken.args[0].s;
    if messageType == "download" {
      r := ParseDownload(typeToken.rest, inflated);
    } else if messageType == "upload" {
      r := ParseUpload(typeToken.rest, inflated);
    } else if messageType == "ident" {
      r := ParseIdent(typeToken.rest);
    } else {
      r := None;
    }
  }
}
