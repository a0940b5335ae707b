/**
 * The access-log parser (`parse_log`): every line is matched against the
 * fixed pattern
 *   ^(\S+) (\S+) (\S+) \[([^]]+)\] "(\S+) (\S+) (\S+)" (\d+) (\d+)
 * with `re.match`, anchored at the start of the line but not at its end; a
 * line that matches becomes a record of seven of the nine groups and a line
 * that does not is dropped. The pattern is modelled by a deterministic
 * scanner, `Scan`, proved equal to the pattern's declarative reading.
 */
module LogParser {
  import opened Wrappers
  import opened Text
  import opened Grouping

  /** One parsed request line. */
  datatype Record = Record(
    ip: string,
    timestamp: string,
    httpMethod: string,
    path: string,
    protocol: string,
    status: string,
    size: string)

  /** The three character classes of the pattern: `\S`, `[^]]` and `\d`. */
  datatype CharClass = NonSpace | NotBracket | Digit

  predicate InClass(c: char, cls: CharClass) {
    match cls
    case NonSpace => !IsSpace(c)
    case NotBracket => c != ']'
    case Digit => IsDigit(c)
  }

  /** What `cls+` matches: a non-empty string of characters of class `cls`. */
  predicate Run(s: string, cls: CharClass) {
    s != [] && forall k :: 0 <= k < |s| ==> InClass(s[k], cls)
  }

  /** Length of the longest prefix of `s` whose characters are all of class `cls`. */
  function Span(s: string, cls: CharClass): (n: nat)
    ensures n <= |s|
    ensures forall k :: 0 <= k < n ==> InClass(s[k], cls)
    ensures n == |s| || !InClass(s[n], cls)
  {
    if s == [] || !InClass(s[0], cls) then 0 else 1 + Span(s[1..], cls)
  }

  lemma SpanOfRun(t: string, rest: string, cls: CharClass)
    requires forall k :: 0 <= k < |t| ==> InClass(t[k], cls)
    requires rest == [] || !InClass(rest[0], cls)
    ensures Span(t + rest, cls) == |t|
  {
    var s := t + rest;
    assert forall k :: 0 <= k < |t| ==> InClass(s[k], cls);
    if |t| < |s| {
      assert s[|t|] == rest[0];
    }
  }

  /** One group `(cls+)` followed by the literal `lit`: the group is the
      longest run of class `cls` (backtracking to a shorter run cannot help,
      since `lit` starts outside the class), and the result is the group and
      the text after `lit`. */
  function Field(s: string, cls: CharClass, lit: string): (r: Option<(string, string)>)
    ensures r.Some? ==> Run(r.value.0, cls) && s == r.value.0 + (lit + r.value.1)
  {
    var n := Span(s, cls);
    if n > 0 && lit <= s[n..] then
      assert s[n..] == lit + s[n + |lit|..];
      assert s == s[..n] + s[n..];
      Some((s[..n], s[n + |lit|..]))
    else None
  }

  lemma FieldOfRun(t: string, cls: CharClass, lit: string, rest: string)
    requires Run(t, cls) && lit != [] && !InClass(lit[0], cls)
    ensures Field(t + (lit + rest), cls, lit) == Some((t, rest))
  {
    var s := t + (lit + rest);
    SpanOfRun(t, lit + rest, cls);
    assert Span(s, cls) == |t|;
    assert s[|t|..] == lit + rest;
    assert lit <= s[|t|..];
    assert s[..|t|] == t;
    assert s[|t| + |lit|..] == rest;
  }

  /** A successful match of the pattern: the record's seven groups, the two
      groups the parser ignores (identity and user), and the unmatched tail
      of the line, which `re.match` does not look at. */
  datatype Match = Match(rec: Record, ident: string, authuser: string, rest: string)

  /** `(\S+) (\S+) (\S+) \[([^]]+)\] "` laid out, followed by `after`. */
  function PrefixText(ip: string, ident: string, authuser: string, stamp: string, after: string): string {
    ip + (" " + (ident + (" " + (authuser + (" [" + (stamp + ("] \"" + after)))))))
  }

  /** `(\S+) (\S+) (\S+)" ` laid out, followed by `after`. */
  function RequestText(verb: string, path: string, protocol: string, after: string): string {
    verb + (" " + (path + (" " + (protocol + ("\"" + (" " + after))))))
  }

  /** `(\d+) (\d+)` laid out, followed by the unmatched tail. */
  function TailText(status: string, size: string, rest: string): string {
    status + (" " + (size + rest))
  }

  /** The line a match stands for: the groups put back between the
      pattern's literal spaces, brackets and quotes. */
  function Layout(m: Match): string {
    var r := m.rec;
    PrefixText(r.ip, m.ident, m.authuser, r.timestamp,
      RequestText(r.httpMethod, r.path, r.protocol, TailText(r.status, r.size, m.rest)))
  }

  /** Every group of a record matches its part of the pattern. */
  predicate WellFormed(r: Record) {
    && Run(r.ip, NonSpace)
    && Run(r.timestamp, NotBracket)
    && Run(r.httpMethod, NonSpace)
    && Run(r.path, NonSpace)
    && Run(r.protocol, NonSpace)
    && Run(r.status, Digit)
    && Run(r.size, Digit)
  }

  /** Every group of a match matches its part of the pattern. */
  predicate Grammar(m: Match) {
    WellFormed(m.rec) && Run(m.ident, NonSpace) && Run(m.authuser, NonSpace)
  }

  /** The last group `(\d+)` is greedy: the tail does not continue it. */
  predicate Greedy(m: Match) {
    m.rest == [] || !IsDigit(m.rest[0])
  }

  /** Groups 1 to 4 and the literal `] "` after the timestamp. */
  function ScanPrefix(s: string): (r: Option<(string, string, string, string, string)>)
    ensures r.Some? ==>
      && Run(r.value.0, NonSpace) && Run(r.value.1, NonSpace) && Run(r.value.2, NonSpace)
      && Run(r.value.3, NotBracket)
      && s == PrefixText(r.value.0, r.value.1, r.value.2, r.value.3, r.value.4)
  {
    var ip :- Field(s, NonSpace, " ");
    var ident :- Field(ip.1, NonSpace, " ");
    var user :- Field(ident.1, NonSpace, " [");
    var stamp :- Field(user.1, NotBracket, "] \"");
    Some((ip.0, ident.0, user.0, stamp.0, stamp.1))
  }

  lemma QuotedRun(q: string, after: string)
    requires Run(q, NonSpace) && |q| >= 2 && q[|q| - 1] == '"'
    ensures Run(q[..|q| - 1], NonSpace)
    ensures q + (" " + after) == q[..|q| - 1] + ("\"" + (" " + after))
  {
    assert q == q[..|q| - 1] + "\"";
  }

  /** Groups 5 to 7, the closing quote and the space after it. Group 7 is
      `(\S+)"`: the whole non-space run up to the next space, less its last
      character, which must be the quote. */
  function ScanRequest(s: string): (r: Option<(string, string, string, string)>)
    ensures r.Some? ==>
      && Run(r.value.0, NonSpace) && Run(r.value.1, NonSpace) && Run(r.value.2, NonSpace)
      && s == RequestText(r.value.0, r.value.1, r.value.2, r.value.3)
  {
    var verb :- Field(s, NonSpace, " ");
    var path :- Field(verb.1, NonSpace, " ");
    var quoted :- Field(path.1, NonSpace, " ");
    var q := quoted.0;
    if |q| < 2 || q[|q| - 1] != '"' then None
    else
      QuotedRun(q, quoted.1);
      Some((verb.0, path.0, q[..|q| - 1], quoted.1))
  }

  /** Groups 8 and 9; the tail after group 9 is left alone. */
  function ScanTail(s: string): (r: Option<(string, string, string)>)
    ensures r.Some? ==>
      && Run(r.value.0, Digit) && Run(r.value.1, Digit)
      && (r.value.2 == [] || !IsDigit(r.value.2[0]))
      && s == TailText(r.value.0, r.value.1, r.value.2)
  {
    var status :- Field(s, Digit, " ");
    var n := Span(status.1, Digit);
    if n == 0 then None
    else
      assert status.1 == status.1[..n] + status.1[n..];
      Some((status.0, status.1[..n], status.1[n..]))
  }

  /** `re.match` of the line pattern, group by group. A match found fits the
      pattern and puts the line back together. */
  function Scan(line: string): (r: Option<Match>)
    ensures r.Some? ==> Grammar(r.value) && Greedy(r.value) && Layout(r.value) == line
  {
    var p :- ScanPrefix(line);
    var q :- ScanRequest(p.4);
    var t :- ScanTail(q.3);
    Some(Match(Record(p.0, p.3, q.0, q.1, q.2, t.0, t.1), p.1, p.2, t.2))
  }

  lemma ScanPrefixText(ip: string, ident: string, authuser: string, stamp: string, after: string)
    requires Run(ip, NonSpace) && Run(ident, NonSpace) && Run(authuser, NonSpace)
    requires Run(stamp, NotBracket)
    ensures ScanPrefix(PrefixText(ip, ident, authuser, stamp, after)) == Some((ip, ident, authuser, stamp, after))
  {
    var afterUser := stamp + ("] \"" + after);
    var afterIdent := authuser + (" [" + afterUser);
    var afterIp := ident + (" " + afterIdent);
    FieldOfRun(ip, NonSpace, " ", afterIp);
    FieldOfRun(ident, NonSpace, " ", afterIdent);
    FieldOfRun(authuser, NonSpace, " [", afterUser);
    FieldOfRun(stamp, NotBracket, "] \"", after);
  }

  lemma ScanRequestText(verb: string, path: string, protocol: string, after: string)
    requires Run(verb, NonSpace) && Run(path, NonSpace) && Run(protocol, NonSpace)
    ensures ScanRequest(RequestText(verb, path, protocol, after)) == Some((verb, path, protocol, after))
  {
    var q := protocol + "\"";
    var afterPath := protocol + ("\"" + (" " + after));
    assert afterPath == q + (" " + after);
    FieldOfRun(verb, NonSpace, " ", path + (" " + afterPath));
    FieldOfRun(path, NonSpace, " ", afterPath);
    FieldOfRun(q, NonSpace, " ", after);
    assert q[..|q| - 1] == protocol;
  }

  lemma ScanTailText(status: string, size: string, rest: string)
    requires Run(status, Digit) && Run(size, Digit)
    requires rest == [] || !IsDigit(rest[0])
    ensures ScanTail(TailText(status, size, rest)) == Some((status, size, rest))
  {
    FieldOfRun(status, Digit, " ", size + rest);
    SpanOfRun(size, rest, Digit);
    assert (size + rest)[..|size|] == size;
    assert (size + rest)[|size|..] == rest;
  }

  /** Conversely, the scanner recovers every match that fits the pattern and
      whose last group is greedy. */
  lemma ScanLayout(m: Match)
    requires Grammar(m) && Greedy(m)
    ensures Scan(Layout(m)) == Some(m)
  {
    var r := m.rec;
    var tail := TailText(r.status, r.size, m.rest);
    var request := RequestText(r.httpMethod, r.path, r.protocol, tail);
    ScanPrefixText(r.ip, m.ident, m.authuser, r.timestamp, request);
    ScanRequestText(r.httpMethod, r.path, r.protocol, tail);
    ScanTailText(r.status, r.size, m.rest);
  }

  /** One line: the record of a matching line, or nothing. */
  function ParseLine(line: string): (r: Option<Record>)
    ensures r.Some? ==> WellFormed(r.value)
  {
    match Scan(line)
    case None => None
    case Some(m) => Some(m.rec)
  }

  /** A line laid out from groups whose tail does not continue the size
      group parses back to exactly those groups. */
  lemma ParseLineOfGreedy(m: Match)
    requires Grammar(m) && Greedy(m)
    ensures ParseLine(Layout(m)) == Some(m.rec)
  {
    ScanLayout(m);
  }

  /** A match whose unmatched tail is followed by `x` lays out its line
      followed by `x`. */
  lemma LayoutWithTail(m: Match, x: string)
    ensures Layout(m.(rest := m.rest + x)) == Layout(m) + x
  {
    var r := m.rec;
    assert TailText(r.status, r.size, m.rest + x) == TailText(r.status, r.size, m.rest) + x;
    var t := TailText(r.status, r.size, m.rest);
    assert RequestText(r.httpMethod, r.path, r.protocol, t + x) == RequestText(r.httpMethod, r.path, r.protocol, t) + x;
    var q := RequestText(r.httpMethod, r.path, r.protocol, t);
    assert PrefixText(r.ip, m.ident, m.authuser, r.timestamp, q + x) == PrefixText(r.ip, m.ident, m.authuser, r.timestamp, q) + x;
  }

  /** Text after a complete line that does not begin with a digit, such as
      the line feed each line but the last keeps, leaves its record as it is. */
  lemma ParseLineWithTail(m: Match, x: string)
    requires Grammar(m) && m.rest == [] && (x == [] || !IsDigit(x[0]))
    ensures ParseLine(Layout(m) + x) == Some(m.rec)
  {
    var m' := m.(rest := x);
    assert m.rest + x == x;
    LayoutWithTail(m, x);
    ParseLineOfGreedy(m');
  }

  /** A run followed by more characters of its class is still a run. */
  lemma RunExtend(t: string, u: string, cls: CharClass)
    requires Run(t, cls) && forall k :: 0 <= k < |u| ==> InClass(u[k], cls)
    ensures Run(t + u, cls)
  {
    assert forall k :: 0 <= k < |t + u| ==> (t + u)[k] == if k < |t| then t[k] else u[k - |t|];
  }

  lemma TailShift(status: string, size: string, rest: string, n: nat)
    requires n <= |rest|
    ensures TailText(status, size + rest[..n], rest[n..]) == TailText(status, size, rest)
  {
    assert rest == rest[..n] + rest[n..];
    assert (size + rest[..n]) + rest[n..] == size + rest;
  }

  /** Moving the digits that begin the tail into the size group lays out
      the same line, and leaves a greedy match. */
  lemma AbsorbDigits(m: Match, n: nat)
    requires Grammar(m) && n == Span(m.rest, Digit)
    ensures var m' := Match(m.rec.(size := m.rec.size + m.rest[..n]), m.ident, m.authuser, m.rest[n..]);
      Grammar(m') && Greedy(m') && Layout(m') == Layout(m)
  {
    RunExtend(m.rec.size, m.rest[..n], Digit);
    TailShift(m.rec.status, m.rec.size, m.rest, n);
  }

  /** `re.match` succeeds on any line the pattern can be laid over; the
      record then holds the groups, with the size group extended by the
      digits that begin the tail (`\d+` is greedy). */
  lemma ParseLineOfLayout(m: Match)
    requires Grammar(m)
    ensures ParseLine(Layout(m)) == Some(m.rec.(size := m.rec.size + m.rest[..Span(m.rest, Digit)]))
  {
    var n := Span(m.rest, Digit);
    var m' := Match(m.rec.(size := m.rec.size + m.rest[..n]), m.ident, m.authuser, m.rest[n..]);
    AbsorbDigits(m, n);
    ParseLineOfGreedy(m');
  }

  /** A line yields a record if and only if it fits the pattern, and the
      record holds exactly the groups of the (greedy) match. */
  lemma LineAcceptance(line: string)
    ensures ParseLine(line).Some? <==> exists m :: Grammar(m) && Layout(m) == line
    ensures forall r :: ParseLine(line) == Some(r) <==>
              exists m :: Grammar(m) && Greedy(m) && m.rec == r && Layout(m) == line
  {
    if m :| Grammar(m) && Layout(m) == line {
      ParseLineOfLayout(m);
    }
    forall r | exists m :: Grammar(m) && Greedy(m) && m.rec == r && Layout(m) == line
      ensures ParseLine(line) == Some(r)
    {
      var m :| Grammar(m) && Greedy(m) && m.rec == r && Layout(m) == line;
      ScanLayout(m);
    }
  }

  /** A line without a closing bracket never matches. */
  lemma MissingBracket(line: string)
    requires ']' !in line
    ensures ParseLine(line) == None
  {
  }

  /** The records a line contributes: its record if it matches, none otherwise. */
  function Kept(r: Option<Record>): seq<Record> {
    match r
    case None => []
    case Some(rec) => [rec]
  }

  /** The records `parse` yields for `lines`, in line order: one line at a
      time, the record of a line it accepts is kept and any other line is
      skipped. */
  function Collect(parse: string -> Option<Record>, lines: seq<string>): (records: seq<Record>)
    ensures |records| <= |lines|
  {
    if lines == [] then []
    else Collect(parse, lines[..|lines| - 1]) + Kept(parse(lines[|lines| - 1]))
  }

  /** The whole file: the records of the lines that match the pattern. */
  function ParseAll(lines: seq<string>): seq<Record> {
    Collect(ParseLine, lines)
  }

  lemma AppendAssoc<T>(x: seq<T>, y: seq<T>, z: seq<T>)
    ensures (x + y) + z == x + (y + z)
  {
  }

  lemma CollectSnoc(parse: string -> Option<Record>, a: seq<string>, b: seq<string>)
    requires b != []
    ensures Collect(parse, a + b) == Collect(parse, a + b[..|b| - 1]) + Kept(parse(b[|b| - 1]))
  {
    assert (a + b)[..|a + b| - 1] == a + b[..|b| - 1];
    assert (a + b)[|a + b| - 1] == b[|b| - 1];
  }

  /** Collecting distributes over concatenation of files: it is an
      order-preserving filter-map, line by line. */
  lemma {:induction false} CollectAppend(parse: string -> Option<Record>, a: seq<string>, b: seq<string>)
    ensures Collect(parse, a + b) == Collect(parse, a) + Collect(parse, b)
    decreases |b|
  {
    if b == [] {
      assert a + b == a;
    } else {
      var b' := b[..|b| - 1];
      CollectAppend(parse, a, b');
      CollectSnoc(parse, a, b);
      CollectSnoc(parse, [], b);
      assert [] + b == b;
      assert [] + b' == b';
      AppendAssoc(Collect(parse, a), Collect(parse, b'), Kept(parse(b[|b| - 1])));
    }
  }

  /** The records of a one-line file. */
  lemma CollectSingle(parse: string -> Option<Record>, line: string)
    ensures Collect(parse, [line]) == Kept(parse(line))
  {
    assert [line][..0] == [];
  }

  /** A record is collected exactly when some line yields it. */
  lemma {:induction false} CollectMembers(parse: string -> Option<Record>, lines: seq<string>)
    ensures forall r :: r in Collect(parse, lines) <==> exists l :: l in lines && parse(l) == Some(r)
  {
    if lines != [] {
      var init, last := lines[..|lines| - 1], lines[|lines| - 1];
      CollectMembers(parse, init);
      assert lines == init + [last];
    }
  }

  /** A file whose every line yields the same record collects that record
      once per line. */
  lemma {:induction false} CollectUniform(parse: string -> Option<Record>, lines: seq<string>, r: Record)
    requires forall i :: 0 <= i < |lines| ==> parse(lines[i]) == Some(r)
    ensures Collect(parse, lines) == Repeat(r, |lines|)
  {
    if lines != [] {
      var n := |lines|;
      CollectUniform(parse, lines[..n - 1], r);
      assert Repeat(r, n) == Repeat(r, n - 1) + [r];
    }
  }

  /** Every record the parser keeps has all its groups well formed, and
      comes from one of the lines. */
  lemma ParseAllWellFormed(lines: seq<string>)
    ensures forall r :: r in ParseAll(lines) ==> WellFormed(r) && exists l :: l in lines && ParseLine(l) == Some(r)
  {
    CollectMembers(ParseLine, lines);
    forall r | r in ParseAll(lines)
      ensures WellFormed(r)
    {
      var l :| l in lines && ParseLine(l) == Some(r);
    }
  }

  /** `parse_log`: read the lines one at a time and keep the record of every
      line that matches. `None` stands for a file that cannot be opened or
      read, which the parser reports and turns into an empty result. */
  method ParseLog(source: Option<seq<string>>) returns (entries: seq<Record>)
    ensures entries == if source.Some? then ParseAll(source.value) else []
  {
    entries := [];
    if source.None? {
      return;
    }
    var lines := source.value;
    for i := 0 to |lines|
      invariant entries == ParseAll(lines[..i])
    {
      assert lines[..i + 1][..i] == lines[..i];
      assert Collect(ParseLine, lines[..i + 1]) == Collect(ParseLine, lines[..i]) + Kept(ParseLine(lines[i]));
      var m := Scan(lines[i]);
      if m.Some? {
        entries := entries + [m.value.rec];
      }
    }
    assert lines[..|lines|] == lines;
  }
}
