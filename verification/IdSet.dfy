/** Kernel ID lists such as "0-3,8": the printer, the Python parser and the Rust parser. */
module IdSet {
  import opened Bytes

  const MAX_CONTROL_BYTES := 65536
  const MAX_ITEMS := 65536
  const MAX_INT_DIGITS := 4300 // the interpreter's limit on converting decimal text
  const MAX_U32 := 0xFFFF_FFFF

  type Range = (nat, nat)

  // ----- Decimal numbers

  predicate IsDigit(c: char) {
    '0' <= c <= '9'
  }

  predicate AllDigits(s: string) {
    forall c | c in s :: IsDigit(c)
  }

  function DigitOf(d: nat): char
    requires d < 10
  {
    "0123456789"[d]
  }

  function ValueOf(c: char): (d: nat)
    requires IsDigit(c)
    ensures d < 10 && DigitOf(d) == c
  {
    c as int - '0' as int
  }

  function Decimal(n: nat): (s: string)
    ensures s != [] && AllDigits(s)
  {
    if n < 10 then [DigitOf(n)] else Decimal(n / 10) + [DigitOf(n % 10)]
  }

  function Value(s: string): nat
    requires AllDigits(s)
  {
    if s == [] then 0 else 10 * Value(s[..|s| - 1]) + ValueOf(s[|s| - 1])
  }

  predicate CanonicalNumber(s: string) {
    s != [] && AllDigits(s) && (s == "0" || s[0] != '0')
  }

  lemma {:induction false} ValueOfDecimal(n: nat)
    ensures Value(Decimal(n)) == n && CanonicalNumber(Decimal(n)) && (n > 0 ==> Decimal(n)[0] != '0')
  {
    if n >= 10 {
      ValueOfDecimal(n / 10);
      assert Decimal(n)[..|Decimal(n)| - 1] == Decimal(n / 10);
    }
  }

  // ----- Lists of components

  function Join(parts: seq<string>): string {
    if |parts| == 0 then "" else if |parts| == 1 then parts[0] else parts[0] + "," + Join(parts[1..])
  }

  /** `text.split(",")`: always at least one component. */
  function Split(text: string): (parts: seq<string>)
    ensures parts != []
    decreases |text|
  {
    if ',' !in text then [text] else
    var i := IndexOf(text, ',');
    [text[..i]] + Split(text[i + 1..])
  }

  function IndexOf(text: string, c: char): (i: nat)
    requires c in text
    ensures i < |text| && text[i] == c && c !in text[..i]
  {
    if text[0] == c then 0 else
    assert text == [text[0]] + text[1..];
    1 + IndexOf(text[1..], c)
  }

  lemma {:induction false} FirstIndex(a: string, c: char, b: string)
    requires c !in a
    ensures c in a + [c] + b && IndexOf(a + [c] + b, c) == |a|
    decreases |a|
  {
    var text := a + [c] + b;
    assert text[|a|] == c;
    if a != [] {
      assert text[0] == a[0] && text[1..] == a[1..] + [c] + b;
      FirstIndex(a[1..], c, b);
    }
  }

  lemma {:induction false} SplitJoin(parts: seq<string>)
    requires parts != [] && forall p | p in parts :: ',' !in p
    ensures Split(Join(parts)) == parts
    decreases |parts|
  {
    if |parts| > 1 {
      var text, later := Join(parts), Join(parts[1..]);
      assert text == parts[0] + [','] + later;
      FirstIndex(parts[0], ',', later);
      assert text[..|parts[0]|] == parts[0] && text[|parts[0]| + 1..] == later;
      SplitJoin(parts[1..]);
    }
  }

  // ----- Ranges

  function PrintRange(r: Range): string {
    if r.0 == r.1 then Decimal(r.0) else Decimal(r.0) + "-" + Decimal(r.1)
  }

  function PrintRanges(rs: seq<Range>): (parts: seq<string>)
    ensures |parts| == |rs| && forall i | 0 <= i < |rs| :: parts[i] == PrintRange(rs[i])
  {
    seq(|rs|, i requires 0 <= i < |rs| => PrintRange(rs[i]))
  }

  /** A value joins the last run if it continues it, and otherwise begins a new one. */
  function AddValue(rs: seq<Range>, v: nat): (r: seq<Range>)
    ensures r != [] && r[|r| - 1].1 == v
  {
    var n := |rs| - 1;
    if rs != [] && v == rs[n].1 + 1 then rs[..n] + [(rs[n].0, v)] else rs + [(v, v)]
  }

  /** The maximal runs of consecutive values. */
  function Runs(values: seq<nat>): (rs: seq<Range>)
    ensures values == [] <==> rs == []
    ensures values != [] ==> rs[|rs| - 1].1 == values[|values| - 1]
  {
    if values == [] then [] else AddValue(Runs(values[..|values| - 1]), values[|values| - 1])
  }

  function UpTo(a: nat, b: nat): (r: seq<nat>)
    ensures |r| == (if a <= b then b - a + 1 else 0) && forall i | 0 <= i < |r| :: r[i] == a + i
  {
    seq(if a <= b then b - a + 1 else 0, i => a + i)
  }

  function Expand(rs: seq<Range>): seq<nat> {
    if rs == [] then [] else Expand(rs[..|rs| - 1]) + UpTo(rs[|rs| - 1].0, rs[|rs| - 1].1)
  }

  function Format(values: seq<nat>): string {
    Join(PrintRanges(Runs(values)))
  }

  predicate Increasing(values: seq<nat>) {
    forall i, j | 0 <= i < j < |values| :: values[i] < values[j]
  }

  /** Ascending ranges with a gap before each. */
  predicate Separated(rs: seq<Range>) {
    Ascending(rs) && forall i | 0 < i < |rs| :: rs[i - 1].1 + 1 < rs[i].0
  }

  lemma ExpandSnoc(rs: seq<Range>, r: Range)
    ensures Expand(rs + [r]) == Expand(rs) + UpTo(r.0, r.1)
  {
    assert (rs + [r])[..|rs|] == rs;
  }

  predicate Ascending(rs: seq<Range>) {
    forall r | r in rs :: r.0 <= r.1
  }

  lemma AddedValueExpands(rs: seq<Range>, v: nat)
    requires Ascending(rs)
    ensures Ascending(AddValue(rs, v)) && Expand(AddValue(rs, v)) == Expand(rs) + [v]
  {
    hide Expand;
    if rs != [] && v == rs[|rs| - 1].1 + 1 {
      var init, last := rs[..|rs| - 1], rs[|rs| - 1];
      assert last in rs && rs == init + [last];
      ExpandSnoc(init, last);
      ExpandSnoc(init, (last.0, v));
      assert UpTo(last.0, v) == UpTo(last.0, last.1) + [v];
      assert Expand(init) + (UpTo(last.0, last.1) + [v]) == (Expand(init) + UpTo(last.0, last.1)) + [v];
    } else {
      ExpandSnoc(rs, (v, v));
      assert UpTo(v, v) == [v];
    }
  }

  /** Expanding the runs gives the values back. */
  lemma {:induction false} RunsExpand(values: seq<nat>)
    ensures Expand(Runs(values)) == values && Ascending(Runs(values))
    decreases |values|
  {
    hide Expand, AddValue;
    if values == [] {
      NothingExpands();
    } else {
      var n := |values| - 1;
      RunsExpand(values[..n]);
      AddedValueExpands(Runs(values[..n]), values[n]);
      assert values == values[..n] + [values[n]];
    }
  }

  lemma NothingExpands()
    ensures Expand([]) == []
  {
  }

  lemma AddedValueIsSeparated(rs: seq<Range>, v: nat)
    requires Separated(rs) && (rs != [] ==> rs[|rs| - 1].1 < v)
    ensures Separated(AddValue(rs, v))
  {
    if rs != [] {
      assert rs[|rs| - 1] in rs;
    }
  }

  lemma {:induction false} RunsAreSeparated(values: seq<nat>)
    requires Increasing(values)
    ensures Separated(Runs(values))
    decreases |values|
  {
    hide AddValue, Separated;
    if values == [] {
      NothingIsSeparated();
    } else {
      var n := |values| - 1;
      RunsAreSeparated(values[..n]);
      assert n > 0 ==> values[n - 1] < values[n];
      AddedValueIsSeparated(Runs(values[..n]), values[n]);
    }
  }

  lemma NothingIsSeparated()
    ensures Separated([])
  {
  }

  method FormatIdSet(values: seq<nat>) returns (text: string)
    ensures text == Format(values)
  {
    hide Runs, AddValue, PrintRange;
    if values == [] {
      NothingFormats();
      return "";
    }
    var ranges: seq<string>, start, previous := [], values[0], values[0];
    ghost var done: seq<Range> := [];
    FirstRun(values[0]);
    assert values[..1] == [values[0]];
    for i := 1 to |values|
      invariant Runs(values[..i]) == done + [(start, previous)] && ranges == PrintRanges(done)
    {
      var value := values[i];
      assert values[..i + 1] == values[..i] + [value];
      RunsSnoc(values[..i], value);
      NextRun(done, start, previous, value);
      if value == previous + 1 {
        previous := value;
        continue;
      }
      ranges, done := ranges + [PrintRange((start, previous))], done + [(start, previous)];
      start, previous := value, value;
    }
    assert values[..|values|] == values;
    text := Join(ranges + [PrintRange((start, previous))]);
    assert ranges + [PrintRange((start, previous))] == PrintRanges(Runs(values));
  }

  lemma NothingFormats()
    ensures Format([]) == ""
  {
  }

  lemma FirstRun(v: nat)
    ensures Runs([v]) == [(v, v)]
  {
    assert [v][..0] == [] && Runs([]) == [];
  }

  lemma NextRun(done: seq<Range>, start: nat, previous: nat, v: nat)
    ensures AddValue(done + [(start, previous)], v)
            == if v == previous + 1 then done + [(start, v)] else done + [(start, previous)] + [(v, v)]
  {
    assert (done + [(start, previous)])[..|done|] == done;
  }

  lemma RunsSnoc(values: seq<nat>, v: nat)
    ensures Runs(values + [v]) == AddValue(Runs(values), v)
  {
    hide AddValue;
    assert (values + [v])[..|values|] == values;
  }

  // ----- The Python parser

  /** One component: a number, or two with a dash between; leading zeros are not refused here. */
  function ParseComponent(s: string): Result<Range> {
    if '-' !in s then if s != [] && AllDigits(s) && |s| <= MAX_INT_DIGITS then Ok((Value(s), Value(s))) else Err
    else
      var i := IndexOf(s, '-');
      var a, b := s[..i], s[i + 1..];
      if a != [] && b != [] && AllDigits(a) && AllDigits(b) && |a| <= MAX_INT_DIGITS && |b| <= MAX_INT_DIGITS
      then Ok((Value(a), Value(b))) else Err
  }

  lemma DashIsNoDigit(s: string)
    requires AllDigits(s)
    ensures '-' !in s && ',' !in s && '\n' !in s && '\r' !in s && '\0' !in s
  {
  }

  predicate Short(r: Range) {
    |Decimal(r.0)| <= MAX_INT_DIGITS && |Decimal(r.1)| <= MAX_INT_DIGITS
  }

  lemma ComponentReads(r: Range)
    ensures Short(r) ==> ParseComponent(PrintRange(r)) == Ok(r)
    ensures !Short(r) ==> ParseComponent(PrintRange(r)) == Err
    ensures ',' !in PrintRange(r) && '\n' !in PrintRange(r) && '\r' !in PrintRange(r) && '\0' !in PrintRange(r)
  {
    hide Value, Decimal, IndexOf;
    var a, b := Decimal(r.0), Decimal(r.1);
    ValueOfDecimal(r.0);
    ValueOfDecimal(r.1);
    DashIsNoDigit(a);
    DashIsNoDigit(b);
    if r.0 != r.1 {
      var s := PrintRange(r);
      assert s == a + ['-'] + b;
      FirstIndex(a, '-', b);
      assert s[..|a|] == a && s[|a| + 1..] == b;
    }
  }

  /** The text of one line, without its optional final line feed. */
  function SingleLine(value: string): Result<string> {
    if |value| > MAX_CONTROL_BYTES then Err else
    var text := if value != [] && value[|value| - 1] == '\n' then value[..|value| - 1] else value;
    if '\n' in text || '\r' in text || '\0' in text then Err else Ok(text)
  }

  /** The sets within the parser's bounds. */
  predicate Acceptable(values: seq<nat>) {
    && values != [] && Increasing(values) && |values| <= MAX_ITEMS
    && forall r | r in Runs(values) :: Short(r)
  }

  lemma {:induction false} JoinIsClean(parts: seq<string>, c: char)
    requires c != ',' && forall p | p in parts :: c !in p
    ensures c !in Join(parts)
    decreases |parts|
  {
    if |parts| > 1 {
      JoinIsClean(parts[1..], c);
      assert Join(parts) == parts[0] + "," + Join(parts[1..]);
    }
  }

  lemma FormatSplits(values: seq<nat>)
    requires values != []
    ensures Split(Format(values)) == PrintRanges(Runs(values)) && Format(values) != ""
    ensures '\n' !in Format(values) && '\r' !in Format(values) && '\0' !in Format(values)
  {
    hide Runs, Join, Split, PrintRange;
    var parts := PrintRanges(Runs(values));
    forall p | p in parts
      ensures ',' !in p && '\n' !in p && '\r' !in p && '\0' !in p
    {
      var i :| 0 <= i < |parts| && parts[i] == p;
      ComponentReads(Runs(values)[i]);
    }
    SplitJoin(parts);
    JoinIsClean(parts, '\n');
    JoinIsClean(parts, '\r');
    JoinIsClean(parts, '\0');
    NotEmpty(Runs(values)[0]);
    EmptySplits();
  }

  lemma NotEmpty(r: Range)
    ensures PrintRange(r) != ""
  {
  }

  lemma EmptySplits()
    ensures Split("") == [""]
  {
  }

  lemma {:induction false} ExpandPrefix(rs: seq<Range>, n: nat)
    requires n <= |rs|
    ensures Expand(rs[..n]) <= Expand(rs)
    decreases |rs|
  {
    if n == |rs| {
      assert rs[..n] == rs;
    } else {
      ExpandPrefix(rs[..|rs| - 1], n);
      assert rs[..|rs| - 1][..n] == rs[..n];
    }
  }

  /** What each component of an acceptable text must look like for the loop not to stop. */
  lemma ComponentIsFine(values: seq<nat>, i: nat)
    requires Acceptable(values) && i < |Runs(values)|
    ensures var rs := Runs(values);
            && ParseComponent(PrintRange(rs[i])) == Ok(rs[i]) && rs[i].0 <= rs[i].1
            && |Expand(rs[..i])| + (rs[i].1 - rs[i].0 + 1) <= MAX_ITEMS
            && Expand(rs[..i + 1]) == Expand(rs[..i]) + UpTo(rs[i].0, rs[i].1)
  {
    hide Runs, Expand;
    var rs := Runs(values);
    assert rs[i] in rs;
    ComponentReads(rs[i]);
    RunsExpand(values);
    ExpandOneMore(rs, i);
    ExpandPrefix(rs, i + 1);
  }

  lemma ExpandOneMore(rs: seq<Range>, i: nat)
    requires i < |rs|
    ensures Expand(rs[..i + 1]) == Expand(rs[..i]) + UpTo(rs[i].0, rs[i].1)
  {
    assert rs[..i + 1][..i] == rs[..i];
  }

  /** The values of the components, each range ascending and the total within the bound. */
  function ParseParts(parts: seq<string>): (r: Result<seq<nat>>)
    ensures r.Ok? ==> |r.value| <= MAX_ITEMS
  {
    if parts == [] then Ok([]) else
    match ParseParts(parts[..|parts| - 1])
    case Err => Err
    case Ok(result) =>
      match ParseComponent(parts[|parts| - 1])
      case Err => Err
      case Ok(r) =>
        if r.0 > r.1 || |result| + (r.1 - r.0 + 1) > MAX_ITEMS then Err else Ok(result + UpTo(r.0, r.1))
  }

  function Parse(value: string): Result<seq<nat>> {
    match SingleLine(value)
    case Err => Err
    case Ok(text) =>
      if text == "" then Err else
      match ParseParts(Split(text))
      case Err => Err
      case Ok(result) => if Increasing(result) && Format(result) == text then Ok(result) else Err
  }

  lemma {:induction false} FailureIsFinal(parts: seq<string>, n: nat)
    requires n <= |parts| && ParseParts(parts[..n]) == Err
    ensures ParseParts(parts) == Err
    decreases |parts|
  {
    hide ParseComponent;
    if n == |parts| {
      assert parts[..n] == parts;
    } else {
      assert parts[..|parts| - 1][..n] == parts[..n];
      FailureIsFinal(parts[..|parts| - 1], n);
    }
  }

  method ParseIdSet(value: string) returns (r: Result<seq<nat>>)
    ensures r == Parse(value)
  {
    hide ParseComponent, Split, Format;
    var line := SingleLine(value);
    if line.Err? || line.value == "" { return Err; }
    var parts, result: seq<nat> := Split(line.value), [];
    for i := 0 to |parts|
      invariant ParseParts(parts[..i]) == Ok(result)
    {
      assert parts[..i + 1][..i] == parts[..i];
      if ParseParts(parts[..i + 1]) == Err {
        FailureIsFinal(parts, i + 1);
      }
      var range := ParseComponent(parts[i]);
      if range.Err? { return Err; }
      var start, end := range.value.0, range.value.1;
      if start > end { return Err; }
      var count := end - start + 1;
      if count > MAX_ITEMS || |result| + count > MAX_ITEMS { return Err; }
      result := result + UpTo(start, end);
    }
    assert parts[..|parts|] == parts;
    var printed := FormatIdSet(result);
    if !Increasing(result) || printed != line.value { return Err; }
    r := Ok(result);
  }

  lemma OnePartMore(parts: seq<string>, result: seq<nat>, r: Range)
    requires parts != [] && ParseParts(parts[..|parts| - 1]) == Ok(result)
    requires ParseComponent(parts[|parts| - 1]) == Ok(r) && r.0 <= r.1 && |result| + (r.1 - r.0 + 1) <= MAX_ITEMS
    ensures ParseParts(parts) == Ok(result + UpTo(r.0, r.1))
  {
  }

  lemma NoParts()
    ensures ParseParts([]) == Ok([])
  {
  }

  lemma {:induction false} PrintedPartsParse(values: seq<nat>, n: nat)
    requires Acceptable(values) && n <= |Runs(values)|
    ensures ParseParts(PrintRanges(Runs(values))[..n]) == Ok(Expand(Runs(values)[..n]))
    decreases n
  {
    hide Runs, ParseComponent, PrintRange, Expand, ParseParts, Acceptable;
    var rs, parts := Runs(values), PrintRanges(Runs(values));
    if n == 0 {
      assert parts[..0] == [] && rs[..0] == [];
      NoParts();
      NothingExpands();
    } else {
      PrintedPartsParse(values, n - 1);
      ComponentIsFine(values, n - 1);
      assert parts[..n][..n - 1] == parts[..n - 1];
      OnePartMore(parts[..n], Expand(rs[..n - 1]), rs[n - 1]);
    }
  }

  lemma PartsBeforeLast(parts: seq<string>)
    requires parts != [] && ParseParts(parts).Ok?
    ensures ParseParts(parts[..|parts| - 1]).Ok? && ParseComponent(parts[|parts| - 1]).Ok?
  {
  }

  lemma PrintRangesPrefix(rs: seq<Range>, n: nat)
    requires n <= |rs|
    ensures PrintRanges(rs)[..n] == PrintRanges(rs[..n])
  {
  }

  lemma {:induction false} ParsedPartsAreShort(rs: seq<Range>)
    requires ParseParts(PrintRanges(rs)).Ok?
    ensures forall r | r in rs :: Short(r)
    decreases |rs|
  {
    hide ParseComponent, PrintRange, Short, ParseParts, PrintRanges;
    if rs != [] {
      var n := |rs| - 1;
      PartsBeforeLast(PrintRanges(rs));
      PrintRangesPrefix(rs, n);
      ParsedPartsAreShort(rs[..n]);
      ComponentReads(rs[n]);
      assert forall r | r in rs :: r in rs[..n] || r == rs[n];
    }
  }

  /**
   * The parser accepts exactly the printed forms, with or without a final line feed, of the sets within
   * its bounds, and returns the set that was printed.
   */
  lemma ParseIffPrinted(value: string, values: seq<nat>)
    ensures Parse(value) == Ok(values)
            <==> && Acceptable(values) && |value| <= MAX_CONTROL_BYTES
                 && (value == Format(values) || value == Format(values) + "\n")
  {
    hide Runs, Expand, ParseParts, Split, Join, PrintRanges;
    if values != [] {
      FormatSplits(values);
    }
    if Parse(value) == Ok(values) {
      var text := SingleLine(value).value;
      assert value == text || value == text + "\n";
      NothingFormats();
      ParsedPartsAreShort(Runs(values));
    }
    if Acceptable(values) && |value| <= MAX_CONTROL_BYTES
       && (value == Format(values) || value == Format(values) + "\n") {
      LineOf(value, Format(values));
      PrintedPartsParse(values, |Runs(values)|);
      RunsExpand(values);
      assert PrintRanges(Runs(values))[..|Runs(values)|] == PrintRanges(Runs(values));
      assert Runs(values)[..|Runs(values)|] == Runs(values);
    }
  }

  lemma LineOf(value: string, text: string)
    requires value == text || value == text + "\n"
    requires |value| <= MAX_CONTROL_BYTES && '\n' !in text && '\r' !in text && '\0' !in text && text != ""
    ensures SingleLine(value) == Ok(text)
  {
    if value == text + "\n" {
      assert value[..|value| - 1] == text;
    } else {
      assert value[|value| - 1] in text;
    }
  }

  // ----- The Rust parser

  /** Exactly one nonempty ASCII line with its line feed. */
  function ExactLine(value: string): Result<string> {
    if value == [] || |value| > MAX_CONTROL_BYTES then Err
    else if value[|value| - 1] != '\n' || '\r' in value || '\0' in value then Err
    else
      var body := value[..|value| - 1];
      if body == [] || '\n' in body || exists c | c in body :: c as int >= 128 then Err else Ok(body)
  }

  function CanonicalU32(s: string): Result<nat> {
    if CanonicalNumber(s) && Value(s) <= MAX_U32 then Ok(Value(s)) else Err
  }

  function RustComponent(s: string): Result<Range> {
    var i := if '-' in s then IndexOf(s, '-') else 0;
    var a, b := if '-' in s then s[..i] else s, if '-' in s then s[i + 1..] else s;
    if s == "" || '-' in a || '-' in b then Err else
    match (CanonicalU32(a), CanonicalU32(b))
    case (Ok(start), Ok(end)) =>
      if end < start || (start == end && '-' in s) then Err else Ok((start, end))
    case _ => Err
  }

  function RustParts(parts: seq<string>): (r: Result<seq<Range>>)
    ensures r.Ok? ==> |r.value| == |parts|
  {
    if parts == [] then Ok([]) else
    match RustParts(parts[..|parts| - 1])
    case Err => Err
    case Ok(rs) =>
      match RustComponent(parts[|parts| - 1])
      case Err => Err
      case Ok(r) => if rs != [] && r.0 <= rs[|rs| - 1].1 then Err else Ok(rs + [r])
  }

  function RustParse(value: string): Result<seq<Range>> {
    match ExactLine(value)
    case Err => Err
    case Ok(line) => RustParts(Split(line))
  }

  lemma {:induction false} RustFailureIsFinal(parts: seq<string>, n: nat)
    requires n <= |parts| && RustParts(parts[..n]) == Err
    ensures RustParts(parts) == Err
    decreases |parts|
  {
    hide RustComponent;
    if n == |parts| {
      assert parts[..n] == parts;
    } else {
      assert parts[..|parts| - 1][..n] == parts[..n];
      RustFailureIsFinal(parts[..|parts| - 1], n);
    }
  }

  method ParseIdSetRust(bytes: string) returns (r: Result<seq<Range>>)
    ensures r == RustParse(bytes)
  {
    hide RustComponent, Split;
    var line := ExactLine(bytes);
    if line.Err? { return Err; }
    var parts, ranges: seq<Range>, previousEnd: int := Split(line.value), [], -1;
    for i := 0 to |parts|
      invariant RustParts(parts[..i]) == Ok(ranges)
      invariant previousEnd == if ranges == [] then -1 else ranges[|ranges| - 1].1
    {
      assert parts[..i + 1][..i] == parts[..i];
      if RustParts(parts[..i + 1]) == Err {
        RustFailureIsFinal(parts, i + 1);
      }
      var range := RustComponent(parts[i]);
      if range.Err? || range.value.0 <= previousEnd { return Err; }
      previousEnd, ranges := range.value.1, ranges + [range.value];
    }
    assert parts[..|parts|] == parts;
    r := Ok(ranges);
  }

  lemma ValueSnoc(init: string, last: char)
    requires AllDigits(init) && IsDigit(last)
    ensures AllDigits(init + [last]) && Value(init + [last]) == 10 * Value(init) + ValueOf(last)
  {
    hide ValueOf;
    assert (init + [last])[..|init|] == init;
  }

  lemma DecimalStep(q: nat, d: nat)
    requires q > 0 && d < 10
    ensures Decimal(10 * q + d) == Decimal(q) + [DigitOf(d)]
  {
    hide DigitOf;
    assert (10 * q + d) / 10 == q && (10 * q + d) % 10 == d;
  }

  lemma DecimalOfDigit(c: char)
    requires IsDigit(c)
    ensures Value([c]) == ValueOf(c) && Decimal(ValueOf(c)) == [c]
  {
    assert [c][..0] == "" && Value("") == 0;
  }

  lemma {:induction false} DecimalOfValue(s: string)
    requires CanonicalNumber(s)
    ensures Decimal(Value(s)) == s
    ensures s != "0" ==> Value(s) > 0
    decreases |s|
  {
    hide Decimal, Value;
    var init, last := s[..|s| - 1], s[|s| - 1];
    assert s == init + [last];
    if init == "" {
      DecimalOfDigit(last);
    } else {
      assert init[0] == s[0];
      ValueSnoc(init, last);
      DecimalOfValue(init);
      DecimalStep(Value(init), ValueOf(last));
    }
  }

  predicate InU32(r: Range) {
    r.0 <= MAX_U32 && r.1 <= MAX_U32
  }

  lemma RustAcceptedIsPrinted(s: string, r: Range)
    requires RustComponent(s) == Ok(r)
    ensures r.0 <= r.1 && InU32(r) && s == PrintRange(r)
  {
    hide Value, Decimal, IndexOf;
    if '-' in s {
      var i := IndexOf(s, '-');
      DecimalOfValue(s[..i]);
      DecimalOfValue(s[i + 1..]);
      assert s == s[..i] + "-" + s[i + 1..];
    } else {
      DecimalOfValue(s);
    }
  }

  lemma RustReadsPrinted(r: Range)
    requires r.0 <= r.1 && InU32(r)
    ensures RustComponent(PrintRange(r)) == Ok(r)
  {
    hide Value, Decimal, IndexOf;
    var s, a, b := PrintRange(r), Decimal(r.0), Decimal(r.1);
    ValueOfDecimal(r.0);
    ValueOfDecimal(r.1);
    DashIsNoDigit(a);
    DashIsNoDigit(b);
    if r.0 != r.1 {
      assert s == a + ['-'] + b;
      FirstIndex(a, '-', b);
      assert s[..|a|] == a && s[|a| + 1..] == b;
    }
  }

  /** The components Rust accepts are the printed forms of ascending 32-bit ranges. */
  lemma RustComponentExact(s: string, r: Range)
    ensures RustComponent(s) == Ok(r) <==> r.0 <= r.1 && InU32(r) && s == PrintRange(r)
  {
    hide RustComponent, PrintRange, InU32;
    if RustComponent(s) == Ok(r) {
      RustAcceptedIsPrinted(s, r);
    }
    if r.0 <= r.1 && InU32(r) && s == PrintRange(r) {
      RustReadsPrinted(r);
    }
  }

  /** Ascending disjoint ranges, possibly adjacent. */
  predicate Ordered(rs: seq<Range>) {
    (forall r | r in rs :: r.0 <= r.1 && InU32(r)) && forall i | 0 < i < |rs| :: rs[i - 1].1 < rs[i].0
  }

  lemma {:induction false} RustPartsExact(parts: seq<string>, rs: seq<Range>)
    ensures RustParts(parts) == Ok(rs) <==> Ordered(rs) && parts == PrintRanges(rs)
    decreases |parts|
  {
    hide RustComponent, PrintRange, InU32;
    if parts == [] {
      assert rs == [] <==> PrintRanges(rs) == [];
    } else if |rs| == |parts| {
      var n := |parts| - 1;
      RustPartsExact(parts[..n], rs[..n]);
      RustComponentExact(parts[n], rs[n]);
      assert rs == rs[..n] + [rs[n]] && parts == parts[..n] + [parts[n]];
      assert PrintRanges(rs)[..n] == PrintRanges(rs[..n]);
      OrderedSnoc(rs);
      if RustParts(parts) == Ok(rs) {
        assert RustParts(parts[..n]) == Ok(rs[..n]);
        assert parts == PrintRanges(rs);
      }
      if Ordered(rs) && parts == PrintRanges(rs) {
        assert RustParts(parts) == Ok(rs[..n] + [rs[n]]);
      }
    }
  }

  lemma OrderedSnoc(rs: seq<Range>)
    requires rs != []
    ensures var n := |rs| - 1;
            Ordered(rs) <==> Ordered(rs[..n]) && rs[n].0 <= rs[n].1 && InU32(rs[n])
                             && (n > 0 ==> rs[n - 1].1 < rs[n].0)
  {
    hide InU32;
    var n := |rs| - 1;
    assert rs[n] in rs;
    assert forall r :: r in rs <==> r in rs[..n] || r == rs[n];
    if Ordered(rs[..n]) && (n > 0 ==> rs[n - 1].1 < rs[n].0) {
      forall i | 0 < i < |rs|
        ensures rs[i - 1].1 < rs[i].0
      {
        if i < n {
          assert rs[..n][i - 1].1 < rs[..n][i].0;
        }
      }
    }
  }

  lemma {:induction false} JoinSplit(text: string)
    ensures Join(Split(text)) == text && forall p | p in Split(text) :: ',' !in p
    decreases |text|
  {
    if ',' in text {
      var i := IndexOf(text, ',');
      JoinSplit(text[i + 1..]);
      var later := Split(text[i + 1..]);
      assert ([text[..i]] + later)[1..] == later;
      assert text == text[..i] + "," + text[i + 1..];
    }
  }

  /** Rust accepts exactly the printed forms of ordered disjoint 32-bit ranges, with their line feed. */
  lemma RustParseIffPrinted(value: string, rs: seq<Range>)
    ensures RustParse(value) == Ok(rs)
            <==> rs != [] && Ordered(rs) && value == Join(PrintRanges(rs)) + "\n" && |value| <= MAX_CONTROL_BYTES
  {
    hide RustParts, Split, Join, PrintRange, InU32;
    var text := Join(PrintRanges(rs));
    if RustParse(value) == Ok(rs) {
      var line := ExactLine(value).value;
      RustPartsExact(Split(line), rs);
      JoinSplit(line);
      assert value == line + "\n";
    }
    if rs != [] && Ordered(rs) && value == text + "\n" && |value| <= MAX_CONTROL_BYTES {
      PrintedRangesSplit(rs);
      RustPartsExact(PrintRanges(rs), rs);
      assert value[..|value| - 1] == text;
    }
  }

  lemma PrintedRangesSplit(rs: seq<Range>)
    requires rs != []
    ensures var text := Join(PrintRanges(rs));
            && Split(text) == PrintRanges(rs) && text != ""
            && (forall c | c in text :: (c as int) < 128 && c != '\n' && c != '\r' && c != '\0')
  {
    hide Join, Split, PrintRange;
    var parts := PrintRanges(rs);
    forall p | p in parts
      ensures ',' !in p && p != "" && RangeText(p)
    {
      var i :| 0 <= i < |parts| && parts[i] == p;
      RangeCharacters(rs[i]);
    }
    SplitJoin(parts);
    EmptySplits();
    assert parts[0] in parts;
    JoinCharacters(parts);
  }

  predicate RangeText(s: string) {
    forall c | c in s :: IsDigit(c) || c == '-'
  }

  lemma RangeCharacters(r: Range)
    ensures PrintRange(r) != "" && ',' !in PrintRange(r) && RangeText(PrintRange(r))
  {
    hide Decimal;
    ComponentReads(r);
  }

  lemma {:induction false} JoinCharacters(parts: seq<string>)
    requires forall p | p in parts :: RangeText(p)
    ensures forall c | c in Join(parts) :: IsDigit(c) || c == '-' || c == ','
    decreases |parts|
  {
    if |parts| > 1 {
      assert forall p | p in parts[1..] :: p in parts;
      JoinCharacters(parts[1..]);
      assert Join(parts) == parts[0] + "," + Join(parts[1..]);
      assert parts[0] in parts;
    } else if |parts| == 1 {
      assert parts[0] in parts;
    }
  }

  // ----- How the two parsers relate

  /** Separated ranges are the runs of the values they stand for. */
  lemma {:induction false} RunsOfExpand(rs: seq<Range>)
    requires Separated(rs)
    ensures Runs(Expand(rs)) == rs && Increasing(Expand(rs)) && (rs != [] ==> Expand(rs) != [])
    ensures rs != [] ==> Expand(rs)[|Expand(rs)| - 1] == rs[|rs| - 1].1
    decreases |rs|
  {
    if rs != [] {
      var n := |rs| - 1;
      var r, before := rs[n], Expand(rs[..n]);
      assert r in rs && rs == rs[..n] + [r];
      SeparatedPrefix(rs);
      RunsOfExpand(rs[..n]);
      RunsOfOneMore(rs[..n], before, r, r.1);
    }
  }

  lemma SeparatedPrefix(rs: seq<Range>)
    requires Separated(rs) && rs != []
    ensures Separated(rs[..|rs| - 1])
  {
    assert forall r | r in rs[..|rs| - 1] :: r in rs;
  }

  lemma IncreasingOnward(before: seq<nat>, start: nat, end: nat)
    requires Increasing(before) && (before != [] ==> before[|before| - 1] < start) && start <= end
    ensures Increasing(before + UpTo(start, end))
  {
    var all := before + UpTo(start, end);
    forall i, j | 0 <= i < j < |all|
      ensures all[i] < all[j]
    {
      if i < |before| <= j {
        assert before[i] <= before[|before| - 1];
      }
    }
  }

  lemma {:induction false} RunsOfOneMore(rs: seq<Range>, before: seq<nat>, r: Range, end: nat)
    requires Runs(before) == rs && Increasing(before) && (before != [] ==> before[|before| - 1] + 1 < r.0)
    requires r.0 <= end
    ensures var all := before + UpTo(r.0, end);
            Runs(all) == rs + [(r.0, end)] && Increasing(all) && all[|all| - 1] == end
    decreases end
  {
    hide AddValue, Runs, Increasing;
    IncreasingOnward(before, r.0, end);
    if end == r.0 {
      assert UpTo(r.0, end) == [end];
      RunsSnoc(before, end);
      NewRun(rs, end);
    } else {
      RunsOfOneMore(rs, before, r, end - 1);
      assert before + UpTo(r.0, end) == (before + UpTo(r.0, end - 1)) + [end];
      RunsSnoc(before + UpTo(r.0, end - 1), end);
      LongerRun(rs, r.0, end);
    }
  }

  lemma NewRun(rs: seq<Range>, v: nat)
    requires rs != [] ==> rs[|rs| - 1].1 + 1 < v
    ensures AddValue(rs, v) == rs + [(v, v)]
  {
  }

  lemma LongerRun(rs: seq<Range>, start: nat, end: nat)
    requires end > 0
    ensures AddValue(rs + [(start, end - 1)], end) == rs + [(start, end)]
  {
    assert (rs + [(start, end - 1)])[..|rs|] == rs;
  }

  lemma LineFeedIsNew(value: string, text: string)
    requires value != "" && value[|value| - 1] == '\n' && '\n' !in text
    ensures value != text
  {
    assert value[|value| - 1] in value;
  }

  /** What the Python parser accepts with a line feed and 32-bit IDs, Rust accepts with the same set. */
  lemma RustAcceptsCanonical(value: string, values: seq<nat>)
    requires value != "" && value[|value| - 1] == '\n' && forall v | v in values :: v <= MAX_U32
    ensures Parse(value) == Ok(values) ==> RustParse(value) == Ok(Runs(values)) && Expand(Runs(values)) == values
  {
    hide Runs, Expand, Join, PrintRange, Parse, RustParse;
    if Parse(value) == Ok(values) {
      ParseIffPrinted(value, values);
      RunsExpand(values);
      FormatSplits(values);
      LineFeedIsNew(value, Format(values));
      RunsAreValues(values);
      RunsAreSeparated(values);
      RustParseIffPrinted(value, Runs(values));
    }
  }

  lemma {:induction false} RunsAreValues(values: seq<nat>)
    ensures forall r | r in Runs(values) :: r.0 in values && r.1 in values
    decreases |values|
  {
    if values != [] {
      var n := |values| - 1;
      var before := Runs(values[..n]);
      RunsAreValues(values[..n]);
      assert values == values[..n] + [values[n]];
      if before != [] {
        assert before[|before| - 1] in before;
      }
    }
  }

  /** Conversely Python accepts what Rust accepts exactly if no ranges touch and the set is small enough. */
  lemma PythonAcceptsSeparated(value: string, rs: seq<Range>)
    requires RustParse(value) == Ok(rs)
    ensures (exists values :: Parse(value) == Ok(values)) <==> Separated(rs) && |Expand(rs)| <= MAX_ITEMS
    ensures Separated(rs) && |Expand(rs)| <= MAX_ITEMS ==> Parse(value) == Ok(Expand(rs))
  {
    hide Runs, Expand, Join, PrintRange, ParseParts, Split, RustParts, Parse, RustParse, Short;
    RustParseIffPrinted(value, rs);
    if Separated(rs) && |Expand(rs)| <= MAX_ITEMS {
      RunsOfExpand(rs);
      forall r | r in rs
        ensures Short(r)
      {
        U32IsShort(r.0);
        U32IsShort(r.1);
        IsShort(r);
      }
      ParseIffPrinted(value, Expand(rs));
    }
    if values: seq<nat> :| Parse(value) == Ok(values) {
      ParseIffPrinted(value, values);
      RunsExpand(values);
      PrintedRangesSplit(rs);
      PrintedRangesSplit(Runs(values));
      FormatSplits(values);
      LineFeedIsNew(value, Format(values));
      RunsAreSeparated(values);
      SameText(Join(PrintRanges(rs)), Format(values));
      PrintRangesInjective(rs, Runs(values));
    }
  }

  lemma SameText(a: string, b: string)
    requires a + "\n" == b + "\n"
    ensures a == b
  {
    assert (a + "\n")[..|a|] == a && (b + "\n")[..|b|] == b;
  }

  lemma IsShort(r: Range)
    requires |Decimal(r.0)| <= 10 && |Decimal(r.1)| <= 10
    ensures Short(r)
  {
  }

  lemma U32IsShort(n: nat)
    requires n <= MAX_U32
    ensures |Decimal(n)| <= 10
  {
    DecimalLength(n, 10, 10_000_000_000);
  }

  lemma {:induction false} DecimalLength(n: nat, digits: nat, bound: nat)
    requires n < bound && digits > 0 && bound == Power10(digits)
    ensures |Decimal(n)| <= digits
    decreases digits
  {
    if n >= 10 {
      assert bound == 10 * Power10(digits - 1);
      DecimalLength(n / 10, digits - 1, Power10(digits - 1));
    }
  }

  function Power10(n: nat): nat {
    if n == 0 then 1 else 10 * Power10(n - 1)
  }

  lemma PrintRangesInjective(rs: seq<Range>, rs': seq<Range>)
    requires PrintRanges(rs) == PrintRanges(rs')
    ensures rs == rs'
  {
    hide PrintRange;
    forall i | 0 <= i < |rs|
      ensures rs[i] == rs'[i]
    {
      assert PrintRanges(rs)[i] == PrintRanges(rs')[i];
      PrintRangeInjective(rs[i], rs'[i]);
    }
  }

  lemma DashMeansTwo(r: Range)
    ensures '-' in PrintRange(r) <==> r.0 != r.1
  {
    hide Decimal;
    DashIsNoDigit(Decimal(r.0));
    if r.0 != r.1 {
      assert PrintRange(r)[|Decimal(r.0)|] == '-';
    }
  }

  lemma PrintRangeInjective(r: Range, r': Range)
    requires PrintRange(r) == PrintRange(r')
    ensures r == r'
  {
    hide Decimal, Value, IndexOf;
    var a, b, a', b' := Decimal(r.0), Decimal(r.1), Decimal(r'.0), Decimal(r'.1);
    ValueOfDecimal(r.0);
    ValueOfDecimal(r.1);
    ValueOfDecimal(r'.0);
    ValueOfDecimal(r'.1);
    DashMeansTwo(r);
    DashMeansTwo(r');
    if r.0 != r.1 {
      var s := PrintRange(r);
      assert s == a + ['-'] + b == a' + ['-'] + b';
      DashIsNoDigit(a);
      DashIsNoDigit(a');
      FirstIndex(a, '-', b);
      FirstIndex(a', '-', b');
      assert s[..|a|] == a && s[|a| + 1..] == b && s[|a'| + 1..] == b' && s[..|a'|] == a';
    }
  }

  /** Rust accepts ranges that touch, which Python refuses. */
  lemma RustAcceptsTouchingRanges()
    ensures var rs: seq<Range> := [(0, 1), (2, 2)];
            RustParse("0-1,2\n") == Ok(rs) && forall values :: Parse("0-1,2\n") != Ok(values)
  {
    hide RustParse, Parse, Expand;
    var rs: seq<Range> := [(0, 1), (2, 2)];
    TouchingText();
    RustParseIffPrinted("0-1,2\n", rs);
    assert rs[0].1 + 1 >= rs[1].0;
    PythonAcceptsSeparated("0-1,2\n", rs);
  }

  lemma TouchingText()
    ensures Join(PrintRanges([(0, 1), (2, 2)])) + "\n" == "0-1,2\n"
  {
    var rs: seq<Range> := [(0, 1), (2, 2)];
    SmallDecimals();
    hide Decimal;
    assert PrintRange(rs[0]) == "0" + "-" + "1" == "0-1" && PrintRange(rs[1]) == "2";
    hide PrintRange;
    assert PrintRanges(rs) == ["0-1", "2"];
    assert ["0-1", "2"][1..] == ["2"];
    assert Join(["0-1", "2"]) == "0-1" + "," + Join(["2"]);
  }

  lemma SmallDecimals()
    ensures Decimal(0) == "0" && Decimal(1) == "1" && Decimal(2) == "2"
  {
  }
}
