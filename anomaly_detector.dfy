/**
 * The anomaly detector (`detect_anomalies`): four independent rules, each a
 * filter of the records, a count per key and a threshold, whose findings are
 * appended rule by rule into one list.
 *
 *   High Frequency   every record, counted per ip, reported above 1000
 *   High Error Rate  status starting with '4' or '5', per ip, above 50
 *   Suspicious Path  a case-insensitive path pattern, per (ip, path), always
 *   Failed Logins    '/login' in the path and status "401", per ip, above 5
 */
module AnomalyDetector {
  import opened Text
  import opened Grouping
  import opened LogParser

  datatype Kind = HighFrequency | HighErrorRate | SuspiciousPath | FailedLogins

  /** The human-readable message of a finding, kept as the values its text is
      formatted from. */
  datatype Message =
    | Excessive(requests: nat)
    | ErrorRate(errors: nat)
    | Accessed(path: string, times: nat)
    | FailedAttempts(attempts: nat)

  datatype Finding = Finding(kind: Kind, ip: string, count: nat, message: Message)

  /** Position of a rule in the findings list. */
  function Rank(kind: Kind): nat {
    match kind
    case HighFrequency => 0
    case HighErrorRate => 1
    case SuspiciousPath => 2
    case FailedLogins => 3
  }

  /** `str.startswith(('4', '5'))`. */
  predicate IsErrorStatus(status: string) {
    StartsWith(status, "4") || StartsWith(status, "5")
  }

  /** `(^/wp-admin|^/admin|\.env$|/config/|/\.git|/\.svn)` searched in `p`.
      `$` also matches just before a final line feed; a parsed path never ends
      in one (`ParsedPathNoLineFeed`), so on the records that alternative is
      `.env` at the very end. */
  predicate SuspiciousPattern(p: string) {
    || StartsWith(p, "/wp-admin")
    || StartsWith(p, "/admin")
    || EndsWith(p, ".env") || EndsWith(p, ".env\n")
    || Contains(p, "/config/")
    || Contains(p, "/.git")
    || Contains(p, "/.svn")
  }

  /** The pattern, searched without regard to case. */
  predicate IsSuspiciousPath(path: string) {
    SuspiciousPattern(ToLower(path))
  }

  /** '/login' anywhere in the path, without regard to case, and status exactly "401". */
  predicate IsFailedLogin(r: Record) {
    Contains(ToLower(r.path), "/login") && r.status == "401"
  }

  /** The boolean mask each rule applies to the records. */
  predicate Contributes(r: Record, kind: Kind) {
    match kind
    case HighFrequency => true
    case HighErrorRate => IsErrorStatus(r.status)
    case SuspiciousPath => IsSuspiciousPath(r.path)
    case FailedLogins => IsFailedLogin(r)
  }

  /** The records a rule looks at, in their original order. */
  function Selected(rs: seq<Record>, kind: Kind): seq<Record> {
    if rs == [] then []
    else
      var r := rs[|rs| - 1];
      Selected(rs[..|rs| - 1], kind) + (if Contributes(r, kind) then [r] else [])
  }

  function Ips(rs: seq<Record>): seq<string> {
    seq(|rs|, i requires 0 <= i < |rs| => rs[i].ip)
  }

  function IpPaths(rs: seq<Record>): seq<(string, string)> {
    seq(|rs|, i requires 0 <= i < |rs| => (rs[i].ip, rs[i].path))
  }

  /** Reference count: the records from `ip` that a rule's mask selects. */
  function CountFor(kind: Kind, rs: seq<Record>, ip: string): nat {
    if rs == [] then 0
    else
      var r := rs[|rs| - 1];
      CountFor(kind, rs[..|rs| - 1], ip) + (if r.ip == ip && Contributes(r, kind) then 1 else 0)
  }

  /** Reference count: the records from `ip` for the suspicious `path`. */
  function CountPair(rs: seq<Record>, ip: string, path: string): nat {
    if rs == [] then 0
    else
      var r := rs[|rs| - 1];
      CountPair(rs[..|rs| - 1], ip, path)
        + (if r.ip == ip && r.path == path && IsSuspiciousPath(r.path) then 1 else 0)
  }

  /** The strict lower bound a per-ip count must exceed to be reported. */
  function Threshold(kind: Kind): nat
    requires kind != SuspiciousPath
  {
    match kind
    case HighFrequency => 1000
    case HighErrorRate => 50
    case FailedLogins => 5
  }

  function IpMessage(kind: Kind, count: nat): Message
    requires kind != SuspiciousPath
  {
    match kind
    case HighFrequency => Excessive(count)
    case HighErrorRate => ErrorRate(count)
    case FailedLogins => FailedAttempts(count)
  }

  function IpFinding(kind: Kind, ip: string, count: nat): Finding
    requires kind != SuspiciousPath
  {
    Finding(kind, ip, count, IpMessage(kind, count))
  }

  function PairFinding(key: (string, string), count: nat): Finding {
    Finding(SuspiciousPath, key.0, count, Accessed(key.1, count))
  }

  predicate DistinctIps(fs: seq<Finding>) {
    forall i, j :: 0 <= i < j < |fs| ==> fs[i].ip != fs[j].ip
  }

  /** The findings of a per-ip rule, one per tallied ip above the threshold. */
  function ReportIps(kind: Kind, t: seq<(string, nat)>): seq<Finding>
    requires kind != SuspiciousPath
  {
    if t == [] then []
    else
      var e := t[|t| - 1];
      ReportIps(kind, t[..|t| - 1]) + (if e.1 > Threshold(kind) then [IpFinding(kind, e.0, e.1)] else [])
  }

  /** Every finding of a per-ip rule is an ip of the tally, above the
      rule's threshold, with its tallied count. */
  lemma {:induction false} ReportIpsSound(kind: Kind, t: seq<(string, nat)>)
    requires kind != SuspiciousPath
    ensures forall f :: f in ReportIps(kind, t) ==>
      f == IpFinding(kind, f.ip, f.count) && f.count > Threshold(kind) && (f.ip, f.count) in t
  {
    if t != [] {
      var t', e := t[..|t| - 1], t[|t| - 1];
      ReportIpsSound(kind, t');
      assert t == t' + [e];
    }
  }

  /** Every tallied ip above the threshold is reported. */
  lemma {:induction false} ReportIpsComplete(kind: Kind, t: seq<(string, nat)>)
    requires kind != SuspiciousPath
    ensures forall e :: e in t && e.1 > Threshold(kind) ==> IpFinding(kind, e.0, e.1) in ReportIps(kind, t)
  {
    if t != [] {
      var t', e := t[..|t| - 1], t[|t| - 1];
      ReportIpsComplete(kind, t');
      assert t == t' + [e];
    }
  }

  /** No ip is reported twice when the tally lists no ip twice. */
  lemma {:induction false} ReportIpsDistinct(kind: Kind, t: seq<(string, nat)>)
    requires kind != SuspiciousPath && DistinctKeys(t)
    ensures DistinctIps(ReportIps(kind, t))
  {
    if t != [] {
      var t', e := t[..|t| - 1], t[|t| - 1];
      assert t == t' + [e];
      ReportIpsDistinct(kind, t');
      ReportIpsSound(kind, t');
      assert forall f :: f in ReportIps(kind, t') ==> f.ip != e.0 by {
        forall f | f in ReportIps(kind, t') ensures f.ip != e.0 {
          var j :| 0 <= j < |t'| && t'[j] == (f.ip, f.count);
        }
      }
    }
  }

  /** A per-ip rule reports each tallied ip whose count is above the rule's
      threshold, with that count, and nothing else; and it reports no ip
      twice when the tally lists no ip twice. */
  lemma ReportIpsContents(kind: Kind, t: seq<(string, nat)>)
    requires kind != SuspiciousPath
    ensures forall f :: f in ReportIps(kind, t) ==>
      f == IpFinding(kind, f.ip, f.count) && f.count > Threshold(kind) && (f.ip, f.count) in t
    ensures forall e :: e in t && e.1 > Threshold(kind) ==> IpFinding(kind, e.0, e.1) in ReportIps(kind, t)
    ensures DistinctKeys(t) ==> DistinctIps(ReportIps(kind, t))
  {
    ReportIpsSound(kind, t);
    ReportIpsComplete(kind, t);
    if DistinctKeys(t) {
      ReportIpsDistinct(kind, t);
    }
  }

  /** The findings of the suspicious-path rule: one for every tallied pair. */
  function ReportPairs(t: seq<((string, string), nat)>): seq<Finding> {
    if t == [] then []
    else ReportPairs(t[..|t| - 1]) + [PairFinding(t[|t| - 1].0, t[|t| - 1].1)]
  }

  lemma {:induction false} ReportPairsContents(t: seq<((string, string), nat)>)
    ensures |ReportPairs(t)| == |t|
    ensures forall j :: 0 <= j < |t| ==> ReportPairs(t)[j] == PairFinding(t[j].0, t[j].1)
  {
    if t != [] {
      ReportPairsContents(t[..|t| - 1]);
    }
  }

  lemma ReportIpsStep(kind: Kind, t: seq<(string, nat)>, i: nat)
    requires kind != SuspiciousPath && i < |t|
    ensures ReportIps(kind, t[..i + 1]) == ReportIps(kind, t[..i]) +
      (if t[i].1 > Threshold(kind) then [IpFinding(kind, t[i].0, t[i].1)] else [])
  {
    assert t[..i + 1][..i] == t[..i];
  }

  lemma ReportPairsStep(t: seq<((string, string), nat)>, i: nat)
    requires i < |t|
    ensures ReportPairs(t[..i + 1]) == ReportPairs(t[..i]) + [PairFinding(t[i].0, t[i].1)]
  {
    assert t[..i + 1][..i] == t[..i];
  }

  /** What one rule appends to the findings list. */
  function Block(rs: seq<Record>, kind: Kind): seq<Finding> {
    if kind == SuspiciousPath then ReportPairs(Tally(IpPaths(Selected(rs, kind))))
    else ReportIps(kind, Tally(Ips(Selected(rs, kind))))
  }

  /** The findings list: the four rules' findings, in rule order. */
  function Anomalies(rs: seq<Record>): seq<Finding> {
    Block(rs, HighFrequency) + Block(rs, HighErrorRate) + Block(rs, SuspiciousPath) + Block(rs, FailedLogins)
  }

  /** One per-ip rule's loop: append a finding for every tallied ip whose
      count is above the rule's threshold, in tally order. */
  method AppendIpFindings(kind: Kind, counts: seq<(string, nat)>, anomalies: seq<Finding>)
    returns (result: seq<Finding>)
    requires kind != SuspiciousPath
    ensures result == anomalies + ReportIps(kind, counts)
  {
    result := anomalies;
    for i := 0 to |counts|
      invariant result == anomalies + ReportIps(kind, counts[..i])
    {
      var ip, count := counts[i].0, counts[i].1;
      ReportIpsStep(kind, counts, i);
      if count > Threshold(kind) {
        result := result + [Finding(kind, ip, count, IpMessage(kind, count))];
      }
    }
    assert counts[..|counts|] == counts;
  }

  /** The suspicious-path rule's loop: append a finding for every tallied
      (ip, path) pair, in tally order. */
  method AppendPairFindings(grouped: seq<((string, string), nat)>, anomalies: seq<Finding>)
    returns (result: seq<Finding>)
    ensures result == anomalies + ReportPairs(grouped)
  {
    result := anomalies;
    for i := 0 to |grouped|
      invariant result == anomalies + ReportPairs(grouped[..i])
    {
      var key, count := grouped[i].0, grouped[i].1;
      ReportPairsStep(grouped, i);
      result := result + [Finding(SuspiciousPath, key.0, count, Accessed(key.1, count))];
    }
    assert grouped[..|grouped|] == grouped;
  }

  /** `detect_anomalies`: for each rule in turn, filter and group-count the
      records, then append that rule's findings to one list. */
  method Detect(records: seq<Record>) returns (anomalies: seq<Finding>)
    ensures anomalies == Anomalies(records)
  {
    SelectedAll(records);
    // Rule 1: High Frequency
    var ipCounts := Tally(Ips(records));
    anomalies := AppendIpFindings(HighFrequency, ipCounts, []);
    ghost var done := Block(records, HighFrequency);
    assert anomalies == done;
    // Rule 2: High Error Rate
    var errorCounts := Tally(Ips(Selected(records, HighErrorRate)));
    anomalies := AppendIpFindings(HighErrorRate, errorCounts, anomalies);
    done := done + Block(records, HighErrorRate);
    assert anomalies == done;
    // Rule 3: Suspicious Path
    var grouped := Tally(IpPaths(Selected(records, SuspiciousPath)));
    anomalies := AppendPairFindings(grouped, anomalies);
    done := done + Block(records, SuspiciousPath);
    assert anomalies == done;
    // Rule 4: Failed Logins
    var loginCounts := Tally(Ips(Selected(records, FailedLogins)));
    anomalies := AppendIpFindings(FailedLogins, loginCounts, anomalies);
  }

  // ---------------------------------------------------------------------------
  // What the rules report, in terms of the reference counts

  /** The High Frequency rule looks at every record. */
  lemma {:induction false} SelectedAll(rs: seq<Record>)
    ensures Selected(rs, HighFrequency) == rs
  {
    if rs != [] {
      SelectedAll(rs[..|rs| - 1]);
    }
  }

  /** Counting the selected ips is the reference count. */
  lemma {:induction false} SelectedIpCount(rs: seq<Record>, kind: Kind, ip: string)
    ensures Count(Ips(Selected(rs, kind)), ip) == CountFor(kind, rs, ip)
  {
    if rs != [] {
      var init, r := rs[..|rs| - 1], rs[|rs| - 1];
      SelectedIpCount(init, kind, ip);
      var s := Selected(init, kind);
      if Contributes(r, kind) {
        var ks := Ips(s) + [r.ip];
        assert Selected(rs, kind) == s + [r];
        assert Ips(s + [r]) == ks;
        assert ks[..|ks| - 1] == Ips(s);
      } else {
        assert Selected(rs, kind) == s;
      }
    }
  }

  /** Counting the selected (ip, path) pairs is the reference count. */
  lemma {:induction false} SelectedPairCount(rs: seq<Record>, ip: string, path: string)
    ensures Count(IpPaths(Selected(rs, SuspiciousPath)), (ip, path)) == CountPair(rs, ip, path)
  {
    if rs != [] {
      var init, r := rs[..|rs| - 1], rs[|rs| - 1];
      SelectedPairCount(init, ip, path);
      var s := Selected(init, SuspiciousPath);
      if Contributes(r, SuspiciousPath) {
        var ks := IpPaths(s) + [(r.ip, r.path)];
        assert Selected(rs, SuspiciousPath) == s + [r];
        assert IpPaths(s + [r]) == ks;
        assert ks[..|ks| - 1] == IpPaths(s);
      } else {
        assert Selected(rs, SuspiciousPath) == s;
      }
    }
  }

  /** A per-ip rule (High Frequency, High Error Rate, Failed Logins) reports
      an ip exactly when the ip's count is above the threshold; the finding
      carries that exact count, and no ip is reported twice. */
  lemma IpRule(rs: seq<Record>, kind: Kind)
    requires kind != SuspiciousPath
    ensures forall f :: f in Block(rs, kind) ==>
      && f == IpFinding(kind, f.ip, f.count)
      && f.count == CountFor(kind, rs, f.ip)
      && f.count > Threshold(kind)
    ensures forall ip :: (exists f :: f in Block(rs, kind) && f.ip == ip) <==> CountFor(kind, rs, ip) > Threshold(kind)
    ensures DistinctIps(Block(rs, kind))
  {
    var ks := Ips(Selected(rs, kind));
    var t := Tally(ks);
    TallyContents(ks);
    ReportIpsContents(kind, t);
    forall ip
      ensures Count(ks, ip) == CountFor(kind, rs, ip) && (Count(ks, ip) > 0 <==> ip in ks)
    {
      SelectedIpCount(rs, kind, ip);
      CountPositive(ks, ip);
    }
    forall ip | CountFor(kind, rs, ip) > Threshold(kind)
      ensures exists f :: f in Block(rs, kind) && f.ip == ip
    {
      var j :| 0 <= j < |t| && t[j].0 == ip;
      assert t[j] in t;
      assert IpFinding(kind, ip, t[j].1) in Block(rs, kind);
    }
  }

  /** The findings of the suspicious-path rule, read through the tally: the
      j-th finding is the j-th tallied pair with its count. */
  lemma SuspiciousPathAt(rs: seq<Record>)
    ensures var t := Tally(IpPaths(Selected(rs, SuspiciousPath)));
      && |Block(rs, SuspiciousPath)| == |t|
      && (forall j :: 0 <= j < |t| ==> Block(rs, SuspiciousPath)[j] == PairFinding(t[j].0, t[j].1))
      && (forall j :: 0 <= j < |t| ==> t[j].1 == CountPair(rs, t[j].0.0, t[j].0.1) > 0)
      && DistinctKeys(t)
  {
    var ks := IpPaths(Selected(rs, SuspiciousPath));
    var t := Tally(ks);
    TallyContents(ks);
    ReportPairsContents(t);
    forall j | 0 <= j < |t|
      ensures t[j].1 == CountPair(rs, t[j].0.0, t[j].0.1)
    {
      SelectedPairCount(rs, t[j].0.0, t[j].0.1);
    }
  }

  /** Every suspicious-path finding names a suspicious path its ip accessed,
      with the exact number of such requests. */
  lemma SuspiciousPathSound(rs: seq<Record>)
    ensures forall f :: f in Block(rs, SuspiciousPath) ==>
      && f.kind == SuspiciousPath
      && f.message.Accessed?
      && f.message == Accessed(f.message.path, f.count)
      && IsSuspiciousPath(f.message.path)
      && f.count == CountPair(rs, f.ip, f.message.path) > 0
  {
    SuspiciousPathAt(rs);
    forall f | f in Block(rs, SuspiciousPath)
      ensures f.kind == SuspiciousPath && f.message.Accessed?
      ensures f.message == Accessed(f.message.path, f.count)
      ensures IsSuspiciousPath(f.message.path)
      ensures f.count == CountPair(rs, f.ip, f.message.path) > 0
    {
      var j :| 0 <= j < |Block(rs, SuspiciousPath)| && Block(rs, SuspiciousPath)[j] == f;
      CountPairPositive(rs, f.ip, f.message.path);
    }
  }

  /** Every request for a suspicious path is covered by a finding. */
  lemma SuspiciousPathComplete(rs: seq<Record>)
    ensures forall r :: r in rs && IsSuspiciousPath(r.path) ==>
      exists f :: f in Block(rs, SuspiciousPath) && f.ip == r.ip && f.message.Accessed? && f.message.path == r.path
  {
    var ks := IpPaths(Selected(rs, SuspiciousPath));
    var t := Tally(ks);
    var fs := Block(rs, SuspiciousPath);
    TallyContents(ks);
    ReportPairsContents(t);
    forall r | r in rs && IsSuspiciousPath(r.path)
      ensures exists f :: f in fs && f.ip == r.ip && f.message.Accessed? && f.message.path == r.path
    {
      CountPairPositive(rs, r.ip, r.path);
      SelectedPairCount(rs, r.ip, r.path);
      CountPositive(ks, (r.ip, r.path));
      var j :| 0 <= j < |t| && t[j].0 == (r.ip, r.path);
      assert fs[j] in fs;
    }
  }

  /** No (ip, path) pair is reported twice. */
  lemma SuspiciousPathDistinct(rs: seq<Record>)
    ensures forall j :: 0 <= j < |Block(rs, SuspiciousPath)| ==> Block(rs, SuspiciousPath)[j].message.Accessed?
    ensures var fs := Block(rs, SuspiciousPath);
      forall i, j :: 0 <= i < j < |fs| ==> (fs[i].ip, fs[i].message.path) != (fs[j].ip, fs[j].message.path)
  {
    SuspiciousPathAt(rs);
  }

  /** Sum of the counts the findings carry. */
  function CountTotal(fs: seq<Finding>): nat {
    if fs == [] then 0 else CountTotal(fs[..|fs| - 1]) + fs[|fs| - 1].count
  }

  /** The suspicious-path report carries the grouped counts, so its counts
      add up to theirs. */
  lemma {:induction false} ReportPairsTotal(t: seq<((string, string), nat)>)
    ensures CountTotal(ReportPairs(t)) == Total(t)
  {
    if t != [] {
      var t' := t[..|t| - 1];
      ReportPairsTotal(t');
      var fs := ReportPairs(t);
      assert fs == ReportPairs(t') + [PairFinding(t[|t| - 1].0, t[|t| - 1].1)];
      assert fs[..|fs| - 1] == ReportPairs(t');
    }
  }

  /** The counts of the suspicious-path findings add up to the number of
      suspicious-path requests. */
  lemma SuspiciousPathTotal(rs: seq<Record>)
    ensures CountTotal(Block(rs, SuspiciousPath)) == |Selected(rs, SuspiciousPath)|
  {
    var ks := IpPaths(Selected(rs, SuspiciousPath));
    IpPathsLength(Selected(rs, SuspiciousPath));
    TallyTotal(ks);
    ReportPairsTotal(Tally(ks));
  }

  /** The suspicious-path rule reports every (ip, path) pair of matching
      records exactly once, with that pair's exact number of records, and
      nothing else; the counts add up to the number of matching records. */
  lemma SuspiciousPathRule(rs: seq<Record>)
    ensures forall f :: f in Block(rs, SuspiciousPath) ==>
      && f.kind == SuspiciousPath
      && f.message.Accessed?
      && f.message == Accessed(f.message.path, f.count)
      && IsSuspiciousPath(f.message.path)
      && f.count == CountPair(rs, f.ip, f.message.path) > 0
    ensures forall r :: r in rs && IsSuspiciousPath(r.path) ==>
      exists f :: f in Block(rs, SuspiciousPath) && f.ip == r.ip && f.message.Accessed? && f.message.path == r.path
    ensures var fs := Block(rs, SuspiciousPath);
      forall i, j :: 0 <= i < j < |fs| ==> (fs[i].ip, fs[i].message.path) != (fs[j].ip, fs[j].message.path)
    ensures CountTotal(Block(rs, SuspiciousPath)) == |Selected(rs, SuspiciousPath)|
  {
    SuspiciousPathSound(rs);
    SuspiciousPathComplete(rs);
    SuspiciousPathDistinct(rs);
    SuspiciousPathTotal(rs);
  }

  lemma IpPathsLength(rs: seq<Record>)
    ensures |IpPaths(rs)| == |rs|
  {
  }

  /** Only records for a suspicious path are counted for a pair, and a
      record of the pair is there exactly when the count is positive. */
  lemma {:induction false} CountPairPositive(rs: seq<Record>, ip: string, path: string)
    ensures CountPair(rs, ip, path) > 0 ==> IsSuspiciousPath(path)
    ensures CountPair(rs, ip, path) > 0 <==> exists r :: r in rs && r.ip == ip && r.path == path && IsSuspiciousPath(path)
  {
    if rs != [] {
      var init := rs[..|rs| - 1];
      CountPairPositive(init, ip, path);
      assert rs == init + [rs[|rs| - 1]];
    }
  }

  // ---------------------------------------------------------------------------
  // Relations between the rules and the shape of the findings list

  lemma {:induction false} CountForPositive(kind: Kind, rs: seq<Record>, ip: string)
    ensures CountFor(kind, rs, ip) > 0 <==> exists r :: r in rs && r.ip == ip && Contributes(r, kind)
  {
    if rs != [] {
      CountForPositive(kind, rs[..|rs| - 1], ip);
      assert rs == rs[..|rs| - 1] + [rs[|rs| - 1]];
    }
  }

  /** A failed login is an error response, and an error response is a
      request: per ip, failed logins <= errors <= requests. */
  lemma {:induction false} CountBounds(rs: seq<Record>, ip: string)
    ensures CountFor(FailedLogins, rs, ip) <= CountFor(HighErrorRate, rs, ip) <= CountFor(HighFrequency, rs, ip)
  {
    if rs != [] {
      CountBounds(rs[..|rs| - 1], ip);
      var r := rs[|rs| - 1];
      if IsFailedLogin(r) {
        assert r.status[..1] == "4";
      }
    }
  }

  /** A record a rule's mask rejects leaves that rule's findings unchanged. */
  lemma NonContributing(rs: seq<Record>, r: Record, kind: Kind)
    requires !Contributes(r, kind)
    ensures Block(rs + [r], kind) == Block(rs, kind)
  {
    assert (rs + [r])[..|rs|] == rs;
    assert Selected(rs + [r], kind) == Selected(rs, kind);
  }

  /** Every finding of `fs` is of kind `k`. */
  predicate OfOneKind(fs: seq<Finding>, k: Kind) {
    forall i :: 0 <= i < |fs| ==> fs[i].kind == k
  }

  /** Every finding of a rule is of that rule's kind. */
  lemma BlockOfOneKind(rs: seq<Record>, kind: Kind)
    ensures OfOneKind(Block(rs, kind), kind)
  {
    var fs := Block(rs, kind);
    if kind == SuspiciousPath {
      SuspiciousPathSound(rs);
    } else {
      IpRule(rs, kind);
    }
    forall i | 0 <= i < |fs|
      ensures fs[i].kind == kind
    {
      assert fs[i] in fs;
    }
  }

  /** Every finding of a rule names an ip that made one of the requests the
      rule selects. */
  lemma BlockIps(rs: seq<Record>, kind: Kind)
    ensures forall f :: f in Block(rs, kind) ==> exists r :: r in rs && r.ip == f.ip && Contributes(r, kind)
  {
    if kind == SuspiciousPath {
      SuspiciousPathSound(rs);
      forall f | f in Block(rs, kind)
        ensures exists r :: r in rs && r.ip == f.ip && Contributes(r, kind)
      {
        CountPairPositive(rs, f.ip, f.message.path);
      }
    } else {
      IpRule(rs, kind);
      forall f | f in Block(rs, kind)
        ensures exists r :: r in rs && r.ip == f.ip && Contributes(r, kind)
      {
        CountForPositive(kind, rs, f.ip);
      }
    }
  }

  /** The findings of one kind, in list order. */
  function OfKind(fs: seq<Finding>, kind: Kind): seq<Finding> {
    if fs == [] then []
    else OfKind(fs[..|fs| - 1], kind) + (if fs[|fs| - 1].kind == kind then [fs[|fs| - 1]] else [])
  }

  lemma {:induction false} OfKindAppend(a: seq<Finding>, b: seq<Finding>, kind: Kind)
    ensures OfKind(a + b, kind) == OfKind(a, kind) + OfKind(b, kind)
  {
    if b != [] {
      var b' := b[..|b| - 1];
      OfKindAppend(a, b', kind);
      assert (a + b)[..|a + b| - 1] == a + b';
    } else {
      assert a + b == a;
    }
  }

  /** Filtering a block by its own kind keeps all of it. */
  lemma {:induction false} OfKindSame(fs: seq<Finding>, k: Kind)
    requires OfOneKind(fs, k)
    ensures OfKind(fs, k) == fs
  {
    if fs != [] {
      var init, last := fs[..|fs| - 1], fs[|fs| - 1];
      assert OfOneKind(init, k);
      OfKindSame(init, k);
      assert last.kind == k;
      assert fs == init + [last];
    }
  }

  /** Filtering a block by another kind keeps none of it. */
  lemma {:induction false} OfKindOther(fs: seq<Finding>, k: Kind, kind: Kind)
    requires OfOneKind(fs, k) && k != kind
    ensures OfKind(fs, kind) == []
  {
    if fs != [] {
      OfKindOther(fs[..|fs| - 1], k, kind);
    }
  }

  /** Findings are listed by rule, in rule order. */
  predicate RankOrdered(fs: seq<Finding>) {
    forall i, j :: 0 <= i < j < |fs| ==> Rank(fs[i].kind) <= Rank(fs[j].kind)
  }

  /** Appending a block of one kind to findings of no later kind keeps the
      list in rule order. */
  lemma AppendOrdered(a: seq<Finding>, b: seq<Finding>, k: Kind)
    requires RankOrdered(a) && OfOneKind(b, k)
    requires forall i :: 0 <= i < |a| ==> Rank(a[i].kind) <= Rank(k)
    ensures RankOrdered(a + b)
    ensures forall i :: 0 <= i < |a + b| ==> Rank((a + b)[i].kind) <= Rank(k)
  {
  }

  /** Filtering the four blocks together is filtering each one. */
  lemma OfKindAppend4(b0: seq<Finding>, b1: seq<Finding>, b2: seq<Finding>, b3: seq<Finding>, kind: Kind)
    ensures OfKind(b0 + b1 + b2 + b3, kind) == OfKind(b0, kind) + OfKind(b1, kind) + OfKind(b2, kind) + OfKind(b3, kind)
  {
    OfKindAppend(b0, b1, kind);
    OfKindAppend(b0 + b1, b2, kind);
    OfKindAppend(b0 + b1 + b2, b3, kind);
  }

  /** Filtering a block of one kind keeps all of it or none of it. */
  lemma OfKindOrEmpty(fs: seq<Finding>, k: Kind, kind: Kind)
    requires OfOneKind(fs, k)
    ensures OfKind(fs, kind) == if k == kind then fs else []
  {
    if k == kind {
      OfKindSame(fs, k);
    } else {
      OfKindOther(fs, k, kind);
    }
  }

  /** Four blocks of one kind each, in rule order, filtered by kind. */
  lemma OfKindSum(b0: seq<Finding>, b1: seq<Finding>, b2: seq<Finding>, b3: seq<Finding>, kind: Kind)
    requires OfOneKind(b0, HighFrequency) && OfOneKind(b1, HighErrorRate)
    requires OfOneKind(b2, SuspiciousPath) && OfOneKind(b3, FailedLogins)
    ensures OfKind(b0 + b1 + b2 + b3, kind) ==
      (if kind == HighFrequency then b0 else []) + (if kind == HighErrorRate then b1 else []) +
      (if kind == SuspiciousPath then b2 else []) + (if kind == FailedLogins then b3 else [])
  {
    OfKindAppend4(b0, b1, b2, b3, kind);
    OfKindOrEmpty(b0, HighFrequency, kind);
    OfKindOrEmpty(b1, HighErrorRate, kind);
    OfKindOrEmpty(b2, SuspiciousPath, kind);
    OfKindOrEmpty(b3, FailedLogins, kind);
  }

  /** Of four blocks, all but the one of `kind` replaced by empty lists. */
  lemma PickBlock(block: Kind -> seq<Finding>, kind: Kind)
    ensures (if kind == HighFrequency then block(HighFrequency) else []) + (if kind == HighErrorRate then block(HighErrorRate) else []) +
      (if kind == SuspiciousPath then block(SuspiciousPath) else []) + (if kind == FailedLogins then block(FailedLogins) else []) == block(kind)
  {
    match kind
    case HighFrequency => assert block(kind) + [] + [] + [] == block(kind);
    case HighErrorRate => assert [] + block(kind) + [] + [] == block(kind);
    case SuspiciousPath => assert [] + [] + block(kind) + [] == block(kind);
    case FailedLogins => assert [] + [] + [] + block(kind) == block(kind);
  }

  /** One block per rule, each of its rule's kind, laid out in rule order
      and filtered by kind, gives back the block of that kind. */
  lemma OfKindBlocks(block: Kind -> seq<Finding>, kind: Kind)
    requires forall k :: OfOneKind(block(k), k)
    ensures OfKind(block(HighFrequency) + block(HighErrorRate) + block(SuspiciousPath) + block(FailedLogins), kind) == block(kind)
  {
    OfKindSum(block(HighFrequency), block(HighErrorRate), block(SuspiciousPath), block(FailedLogins), kind);
    PickBlock(block, kind);
  }

  /** Filtered by kind, the findings list gives back that rule's findings. */
  lemma AnomaliesOfKind(rs: seq<Record>, kind: Kind)
    ensures OfKind(Anomalies(rs), kind) == Block(rs, kind)
  {
    forall k {
      BlockOfOneKind(rs, k);
    }
    OfKindBlocks(k => Block(rs, k), kind);
  }

  /** Four blocks of one kind each, in rule order, are ordered by rule. */
  lemma OrderedBlocks(b0: seq<Finding>, b1: seq<Finding>, b2: seq<Finding>, b3: seq<Finding>)
    requires OfOneKind(b0, HighFrequency) && OfOneKind(b1, HighErrorRate)
    requires OfOneKind(b2, SuspiciousPath) && OfOneKind(b3, FailedLogins)
    ensures RankOrdered(b0 + b1 + b2 + b3)
  {
    assert [] + b0 == b0;
    AppendOrdered([], b0, HighFrequency);
    AppendOrdered(b0, b1, HighErrorRate);
    AppendOrdered(b0 + b1, b2, SuspiciousPath);
    AppendOrdered(b0 + b1 + b2, b3, FailedLogins);
  }

  /** The findings list is ordered by rule. */
  lemma AnomaliesOrdered(rs: seq<Record>)
    ensures RankOrdered(Anomalies(rs))
  {
    var b0, b1, b2, b3 := Block(rs, HighFrequency), Block(rs, HighErrorRate), Block(rs, SuspiciousPath), Block(rs, FailedLogins);
    BlockOfOneKind(rs, HighFrequency);
    BlockOfOneKind(rs, HighErrorRate);
    BlockOfOneKind(rs, SuspiciousPath);
    BlockOfOneKind(rs, FailedLogins);
    OrderedBlocks(b0, b1, b2, b3);
  }

  /** Every ip the findings list names made at least one request. */
  lemma AnomaliesIps(rs: seq<Record>)
    ensures forall f :: f in Anomalies(rs) ==> exists r :: r in rs && r.ip == f.ip
  {
    BlockIps(rs, HighFrequency);
    BlockIps(rs, HighErrorRate);
    BlockIps(rs, SuspiciousPath);
    BlockIps(rs, FailedLogins);
  }

  /** The findings list is the four rules' findings in rule order: filtered
      by kind it gives back each rule's findings, it is ordered by rule, and
      every ip it names occurs in the records. */
  lemma AnomaliesStructure(rs: seq<Record>)
    ensures forall kind :: OfKind(Anomalies(rs), kind) == Block(rs, kind)
    ensures RankOrdered(Anomalies(rs))
    ensures forall f :: f in Anomalies(rs) ==> exists r :: r in rs && r.ip == f.ip
  {
    forall kind
      ensures OfKind(Anomalies(rs), kind) == Block(rs, kind)
    {
      AnomaliesOfKind(rs, kind);
    }
    AnomaliesOrdered(rs);
    AnomaliesIps(rs);
  }

  /** The suspicious-path pattern ignores case. */
  lemma SuspiciousIgnoresCase(path: string)
    ensures IsSuspiciousPath(ToUpper(path)) == IsSuspiciousPath(path)
  {
    LowerOfUpper(path);
  }

  /** A parsed path is a run of non-space characters, so the "before a final
      line feed" reading of `$` never applies to it. */
  lemma ParsedPathNoLineFeed(r: Record)
    requires WellFormed(r)
    ensures !EndsWith(ToLower(r.path), ".env\n")
    ensures var l := ToLower(r.path);
      IsSuspiciousPath(r.path) <==>
        || StartsWith(l, "/wp-admin") || StartsWith(l, "/admin") || EndsWith(l, ".env")
        || Contains(l, "/config/") || Contains(l, "/.git") || Contains(l, "/.svn")
  {
    var l := ToLower(r.path);
    var c := r.path[|r.path| - 1];
    assert !IsSpace(c);
    assert l[|l| - 1] == LowerChar(c) != '\n';
    assert ".env\n"[4] == '\n';
  }
}
