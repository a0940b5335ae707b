/**
 * Worked cases of the parser and the detector: a log of identical lines,
 * the rule thresholds at their boundaries, and the suspicious-path pattern
 * on individual paths.
 */
module Scenarios {
  import opened Wrappers
  import opened Text
  import opened Grouping
  import opened LogParser
  import opened AnomalyDetector

  // ---------------------------------------------------------------------------
  // Logs made of one repeated line or record

  /** A file of `n` copies of a matching line parses to `n` copies of its record. */
  lemma ParseAllRepeat(line: string, r: Record, n: nat)
    requires ParseLine(line) == Some(r)
    ensures ParseAll(Repeat(line, n)) == Repeat(r, n)
  {
    CollectUniform(ParseLine, Repeat(line, n), r);
  }

  lemma {:induction false} SelectedRepeat(r: Record, n: nat, kind: Kind)
    ensures Selected(Repeat(r, n), kind) == if Contributes(r, kind) then Repeat(r, n) else []
  {
    if n > 0 {
      SelectedRepeat(r, n - 1, kind);
      assert Repeat(r, n)[..n - 1] == Repeat(r, n - 1);
      assert Repeat(r, n) == Repeat(r, n - 1) + [r];
    }
  }

  lemma IpsRepeat(r: Record, n: nat)
    ensures Ips(Repeat(r, n)) == Repeat(r.ip, n)
    ensures IpPaths(Repeat(r, n)) == Repeat((r.ip, r.path), n)
  {
  }

  /** `n` identical requests reach a per-ip rule's finding exactly when the
      rule selects them and `n` is above its threshold. */
  lemma RepeatedRecord(r: Record, n: nat, kind: Kind)
    requires kind != SuspiciousPath
    ensures Block(Repeat(r, n), kind) ==
      if Contributes(r, kind) && n > Threshold(kind) then [IpFinding(kind, r.ip, n)] else []
  {
    var rs := Repeat(r, n);
    SelectedRepeat(r, n, kind);
    var ks := Ips(Selected(rs, kind));
    var m := if Contributes(r, kind) then n else 0;
    IpsRepeat(r, m);
    assert ks == Repeat(r.ip, m);
    TallyRepeat(r.ip, m);
    var t := Tally(ks);
    if m == 0 {
      assert t == [];
    } else {
      assert t == [(r.ip, m)];
      assert t[..0] == [];
      assert ReportIps(kind, t) == ReportIps(kind, []) +
        (if m > Threshold(kind) then [IpFinding(kind, r.ip, m)] else []);
    }
  }

  /** `n` identical requests for a suspicious path give one finding with
      count `n`; for any other path they give none. */
  lemma RepeatedSuspicious(r: Record, n: nat)
    ensures Block(Repeat(r, n), SuspiciousPath) ==
      if IsSuspiciousPath(r.path) && n > 0 then [PairFinding((r.ip, r.path), n)] else []
  {
    var rs := Repeat(r, n);
    SelectedRepeat(r, n, SuspiciousPath);
    var ks := IpPaths(Selected(rs, SuspiciousPath));
    var m := if IsSuspiciousPath(r.path) then n else 0;
    IpsRepeat(r, m);
    assert ks == Repeat((r.ip, r.path), m);
    TallyRepeat((r.ip, r.path), m);
    var t := Tally(ks);
    if m == 0 {
      assert t == [];
    } else {
      assert t == [((r.ip, r.path), m)];
      assert t[..0] == [];
      assert ReportPairs(t) == ReportPairs([]) + [PairFinding((r.ip, r.path), m)];
    }
  }

  // ---------------------------------------------------------------------------
  // Three requests for /wp-admin

  const WpRecord: Record :=
    Record("10.0.0.1", "01/Jan/2024:00:00:00 +0000", "GET", "/wp-admin", "HTTP/1.1", "200", "100")

  /** The line
        10.0.0.1 - - [01/Jan/2024:00:00:00 +0000] "GET /wp-admin HTTP/1.1" 200 100
      written as the layout of its groups, with "-" for ident and authuser. */
  const WpMatch: Match := Match(WpRecord, "-", "-", "")

  lemma WpRequestGroups()
    ensures Run("GET", NonSpace) && Run("/wp-admin", NonSpace) && Run("HTTP/1.1", NonSpace)
    ensures Run("200", Digit) && Run("100", Digit)
  {
    assert Run("GET", NonSpace);
    assert Run("/wp-admin", NonSpace);
    assert Run("HTTP/1.1", NonSpace);
  }

  lemma WpRecordWellFormed()
    ensures WellFormed(WpRecord)
  {
    assert Run("10.0.0.1", NonSpace);
    assert Run("01/Jan/2024:00:00:00 +0000", NotBracket);
    WpRequestGroups();
  }

  /** The /wp-admin line parses to its record as the last line of a file. */
  lemma WpLineParses()
    ensures Grammar(WpMatch)
    ensures ParseLine(Layout(WpMatch)) == Some(WpRecord)
  {
    WpRecordWellFormed();
    assert Run("-", NonSpace);
    ParseLineOfGreedy(WpMatch);
  }

  /** It parses to the same record followed by the line feed that every
      earlier line of a file keeps. */
  lemma WpLineFeedParses()
    ensures ParseLine(Layout(WpMatch) + "\n") == Some(WpRecord)
  {
    WpLineParses();
    ParseLineWithTail(WpMatch, "\n");
  }

  /** The front of the /wp-admin line, up to its timestamp. */
  lemma WpFront(stamp: string, after: string)
    ensures PrefixText("10.0.0.1", "-", "-", stamp, after) == "10.0.0.1 - - [" + stamp + "] \"" + after
  {
    assert "10.0.0.1" + " " + "-" + " " + "-" + " [" == "10.0.0.1 - - [";
  }

  /** The quoted request of the /wp-admin line. */
  lemma WpRequest(after: string)
    ensures RequestText("GET", "/wp-admin", "HTTP/1.1", after) == "GET /wp-admin HTTP/1.1" + "\" " + after
  {
    assert "GET" + " " + "/wp-admin" + " " + "HTTP/1.1" == "GET /wp-admin HTTP/1.1";
  }

  /** The line of `WpMatch`, written out piece by piece: the front up to
      the opening bracket, the timestamp, the quoted request and the tail. */
  lemma WpLineText()
    ensures Layout(WpMatch) ==
      "10.0.0.1 - - [" + "01/Jan/2024:00:00:00 +0000" + "] \"" + "GET /wp-admin HTTP/1.1" + "\" " + "200 100"
  {
    var tail := TailText("200", "100", "");
    assert tail == "200 100";
    WpRequest(tail);
    WpFront("01/Jan/2024:00:00:00 +0000", RequestText("GET", "/wp-admin", "HTTP/1.1", tail));
  }

  /** The request is for a suspicious path, succeeded, and is no login. */
  lemma WpRecordRules()
    ensures IsSuspiciousPath(WpRecord.path)
    ensures !IsErrorStatus(WpRecord.status)
    ensures !IsFailedLogin(WpRecord)
  {
    assert ToLower("/wp-admin") == "/wp-admin";
    assert StartsWith(ToLower("/wp-admin"), "/wp-admin");
    NotPrefixAt("200", "4", 0);
    NotPrefixAt("200", "5", 0);
    assert "200" != "401";
  }

  /** Up to 1000 copies of a request for a suspicious path, with a status
      that is not an error and no failed login, yield exactly one finding:
      the suspicious-path finding for that ip and path, counting every copy. */
  lemma RepeatedSuspiciousRecords(r: Record, n: nat)
    requires IsSuspiciousPath(r.path) && !IsErrorStatus(r.status) && !IsFailedLogin(r)
    requires 0 < n <= 1000
    ensures Anomalies(Repeat(r, n)) == [Finding(SuspiciousPath, r.ip, n, Accessed(r.path, n))]
  {
    var rs := Repeat(r, n);
    RepeatedRecord(r, n, HighFrequency);
    assert Block(rs, HighFrequency) == [];
    RepeatedRecord(r, n, HighErrorRate);
    assert Block(rs, HighErrorRate) == [];
    RepeatedSuspicious(r, n);
    assert Block(rs, SuspiciousPath) == [PairFinding((r.ip, r.path), n)];
    RepeatedRecord(r, n, FailedLogins);
    assert Block(rs, FailedLogins) == [];
    assert Anomalies(rs) == [] + [] + [PairFinding((r.ip, r.path), n)] + [];
  }

  /** The same for a file of `n` copies of a line that parses to such a request. */
  lemma RepeatedSuspiciousLine(line: string, r: Record, n: nat)
    requires ParseLine(line) == Some(r)
    requires IsSuspiciousPath(r.path) && !IsErrorStatus(r.status) && !IsFailedLogin(r)
    requires 0 < n <= 1000
    ensures Anomalies(ParseAll(Repeat(line, n))) == [Finding(SuspiciousPath, r.ip, n, Accessed(r.path, n))]
  {
    ParseAllRepeat(line, r, n);
    RepeatedSuspiciousRecords(r, n);
  }

  /** A log of the /wp-admin line three times, each copy ending in a line
      feed, yields exactly one finding: a suspicious-path finding for that
      ip and path, count 3. */
  lemma WpAdminScenario()
    ensures Layout(WpMatch) ==
      "10.0.0.1 - - [" + "01/Jan/2024:00:00:00 +0000" + "] \"" + "GET /wp-admin HTTP/1.1" + "\" " + "200 100"
    ensures Anomalies(ParseAll(Repeat(Layout(WpMatch) + "\n", 3))) ==
      [Finding(SuspiciousPath, "10.0.0.1", 3, Accessed("/wp-admin", 3))]
  {
    WpLineText();
    WpLineFeedParses();
    WpRecordRules();
    RepeatedSuspiciousLine(Layout(WpMatch) + "\n", WpRecord, 3);
  }

  // ---------------------------------------------------------------------------
  // Threshold boundaries

  /** Any request whose path contains `/login`, in any case, and whose status
      is exactly 401 is a failed login. */
  lemma LoginRecordFails(a: string, b: string, r: Record)
    requires r.path == a + "/login" + b && r.status == "401"
    ensures IsFailedLogin(r)
  {
    ToLowerAppend(a + "/login", b);
    ToLowerAppend(a, "/login");
    assert ToLower("/login") == "/login";
    var l := ToLower(r.path);
    assert l == ToLower(a) + "/login" + ToLower(b);
    assert l[|a|..|a| + 6] == "/login";
    assert OccursAt(l, "/login", |a|);
    ContainsAt(l, "/login");
  }

  /** Six copies of any failed login are reported with count 6; five are not. */
  lemma FailedLoginBoundary(r: Record)
    requires IsFailedLogin(r)
    ensures Block(Repeat(r, 6), FailedLogins) == [Finding(FailedLogins, r.ip, 6, FailedAttempts(6))]
    ensures Block(Repeat(r, 5), FailedLogins) == []
  {
    RepeatedRecord(r, 6, FailedLogins);
    RepeatedRecord(r, 5, FailedLogins);
  }

  /** A request on /login answered with anything but 401 (a 403, say) is not a
      failed login: any number of them, added to any log, leave the
      failed-login findings as they were. */
  lemma {:induction false} ForbiddenLoginNeverCounts(rs: seq<Record>, r: Record, n: nat)
    requires r.status != "401"
    ensures Block(Repeat(r, n), FailedLogins) == []
    ensures Block(rs + Repeat(r, n), FailedLogins) == Block(rs, FailedLogins)
  {
    RepeatedRecord(r, n, FailedLogins);
    if n == 0 {
      assert rs + Repeat(r, 0) == rs;
    } else {
      var front := rs + Repeat(r, n - 1);
      RepeatSnoc(rs, r, n);
      ForbiddenLoginNeverCounts(rs, r, n - 1);
      NonContributing(front, r, FailedLogins);
    }
  }

  /** Appending `n` copies is appending `n - 1` copies and then one more. */
  lemma RepeatSnoc<T>(xs: seq<T>, x: T, n: nat)
    requires n > 0
    ensures xs + Repeat(x, n) == (xs + Repeat(x, n - 1)) + [x]
  {
    assert Repeat(x, n) == Repeat(x, n - 1) + [x];
  }

  /** 1001 requests from one ip are reported; 1000 are not. */
  lemma HighFrequencyBoundary(r: Record)
    ensures Block(Repeat(r, 1001), HighFrequency) == [Finding(HighFrequency, r.ip, 1001, Excessive(1001))]
    ensures Block(Repeat(r, 1000), HighFrequency) == []
  {
    RepeatedRecord(r, 1001, HighFrequency);
    RepeatedRecord(r, 1000, HighFrequency);
  }

  /** 51 error responses to one ip are reported; 50 are not. */
  lemma HighErrorRateBoundary(r: Record)
    requires IsErrorStatus(r.status)
    ensures Block(Repeat(r, 51), HighErrorRate) == [Finding(HighErrorRate, r.ip, 51, ErrorRate(51))]
    ensures Block(Repeat(r, 50), HighErrorRate) == []
  {
    RepeatedRecord(r, 51, HighErrorRate);
    RepeatedRecord(r, 50, HighErrorRate);
  }

  // ---------------------------------------------------------------------------
  // Single lines and paths

  /** The pattern ignores case: `/ADMIN` is an admin path. */
  lemma UpperCaseAdmin()
    ensures IsSuspiciousPath("/ADMIN")
  {
    assert ToLower("/ADMIN") == "/admin";
    assert StartsWith(ToLower("/ADMIN"), "/admin");
  }

  /** `/config` needs its trailing slash. */
  lemma ConfigWithoutSlash()
    ensures !IsSuspiciousPath("/config")
  {
    assert ToLower("/config") == "/config";
    ConfigPattern();
  }

  lemma ConfigPattern()
    ensures !SuspiciousPattern("/config")
  {
    NotPrefixAt("/config", "/wp-admin", 1);
    NotPrefixAt("/config", "/admin", 1);
    ConfigHasNoPart();
  }

  /** `/config` is too short to hold `/config/` and has no dot for the
      version-control directories. */
  lemma ConfigHasNoPart()
    ensures !Contains("/config", "/config/")
    ensures !Contains("/config", "/.git") && !Contains("/config", "/.svn")
  {
    NeverContains("/config", "/config/");
    var s := "/config";
    assert s[1] == 'c' && s[2] == 'o' && s[3] == 'n' && s[4] == 'f' && s[5] == 'i' && s[6] == 'g';
    assert '.' !in s;
    assert "/.git"[1] == '.' && "/.svn"[1] == '.';
    NeverContains(s, "/.git");
    NeverContains(s, "/.svn");
  }

  /** `/config/` may occur anywhere in the path. */
  lemma ConfigDirectory(a: string, b: string)
    ensures IsSuspiciousPath(a + "/config/" + b)
  {
    var p := a + "/config/" + b;
    ToLowerAppend(a + "/config/", b);
    ToLowerAppend(a, "/config/");
    assert ToLower("/config/") == "/config/";
    var l := ToLower(p);
    assert l == ToLower(a) + "/config/" + ToLower(b);
    assert l[|a|..|a| + 8] == "/config/";
    assert OccursAt(l, "/config/", |a|);
    ContainsAt(l, "/config/");
  }

  /** Any path ending in an environment file is suspicious. */
  lemma EnvFile(p: string)
    ensures IsSuspiciousPath(p + ".env")
  {
    ToLowerAppend(p, ".env");
    assert ToLower(".env") == ".env";
    var l := ToLower(p + ".env");
    assert l == ToLower(p) + ".env";
    assert l[|l| - 4..] == ".env";
  }
}
