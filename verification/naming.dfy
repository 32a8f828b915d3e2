/**
 * The strings `backup_odoo_and_upload_to_drive` builds before any I/O:
 * the `%Y%m%d_%H%M%S` timestamp, the local archive path under `/tmp/`,
 * the backup endpoint URL, and the remote file name, which is the
 * `os.path.basename` of the local path.
 */
module Naming {
  import opened Wrappers

  /** The fields of `datetime.now()` that `%Y%m%d_%H%M%S` prints. */
  datatype DateTime = DateTime(year: nat, month: nat, day: nat, hour: nat, minute: nat, second: nat)

  /** The ranges Python's `datetime` guarantees for these fields. */
  predicate ValidDateTime(t: DateTime)
  {
    1 <= t.year <= 9999 && 1 <= t.month <= 12 && 1 <= t.day <= 31 &&
    t.hour < 24 && t.minute < 60 && t.second < 60
  }

  function Pow10(n: nat): nat
  {
    if n == 0 then 1 else 10 * Pow10(n - 1)
  }

  predicate IsDigit(c: char)
  {
    '0' <= c <= '9'
  }

  predicate AllDigits(s: string)
  {
    forall i :: 0 <= i < |s| ==> IsDigit(s[i])
  }

  /** `n` in decimal, zero-padded on the left to `width` digits (`%02d`, `%04d`). */
  function PadDecimal(n: nat, width: nat): (r: string)
    requires n < Pow10(width)
    ensures |r| == width && AllDigits(r)
  {
    if width == 0 then []
    else PadDecimal(n / 10, width - 1) + [(48 + n % 10) as char]
  }

  /** The value of a string of decimal digits. */
  function DecimalValue(s: string): nat
    requires AllDigits(s)
  {
    if s == [] then 0
    else DecimalValue(s[..|s| - 1]) * 10 + (s[|s| - 1] as int - 48)
  }

  lemma {:induction false} PadDecimalRoundTrip(n: nat, width: nat)
    requires n < Pow10(width)
    ensures DecimalValue(PadDecimal(n, width)) == n
  {
    if width > 0 {
      var r := PadDecimal(n, width);
      assert n / 10 < Pow10(width - 1);
      PadDecimalRoundTrip(n / 10, width - 1);
      assert r[..|r| - 1] == PadDecimal(n / 10, width - 1);
    }
  }

  /** Eight digits, `_`, six digits: the shape of `%Y%m%d_%H%M%S`. */
  predicate IsTimestamp(s: string)
  {
    |s| == 15 && s[8] == '_' && forall i :: 0 <= i < 15 && i != 8 ==> IsDigit(s[i])
  }

  /** `datetime.now().strftime("%Y%m%d_%H%M%S")`. */
  function Timestamp(t: DateTime): (r: string)
    requires ValidDateTime(t)
    ensures IsTimestamp(r)
  {
    PadDecimal(t.year, 4) + PadDecimal(t.month, 2) + PadDecimal(t.day, 2) + "_" +
    PadDecimal(t.hour, 2) + PadDecimal(t.minute, 2) + PadDecimal(t.second, 2)
  }

  /** Reads the six fields back out of a timestamp string. */
  function ParseTimestamp(s: string): Option<DateTime>
  {
    if !IsTimestamp(s) then None
    else
      assert AllDigits(s[..4]) && AllDigits(s[4..6]) && AllDigits(s[6..8]);
      assert AllDigits(s[9..11]) && AllDigits(s[11..13]) && AllDigits(s[13..]);
      Some(DateTime(DecimalValue(s[..4]), DecimalValue(s[4..6]), DecimalValue(s[6..8]),
                    DecimalValue(s[9..11]), DecimalValue(s[11..13]), DecimalValue(s[13..])))
  }

  /** The three parts of a concatenation can be sliced back out. */
  lemma ThreeParts(a: string, b: string, c: string)
    ensures (a + b + c)[..|a|] == a
    ensures (a + b + c)[|a|..|a| + |b|] == b
    ensures (a + b + c)[|a| + |b|..] == c
  {
  }

  /** Where each padded field sits in the timestamp. */
  lemma TimestampFields(t: DateTime)
    requires ValidDateTime(t)
    ensures var r := Timestamp(t);
      r[..4] == PadDecimal(t.year, 4) && r[4..6] == PadDecimal(t.month, 2) &&
      r[6..8] == PadDecimal(t.day, 2) && r[9..11] == PadDecimal(t.hour, 2) &&
      r[11..13] == PadDecimal(t.minute, 2) && r[13..] == PadDecimal(t.second, 2)
  {
    var y, mo, d := PadDecimal(t.year, 4), PadDecimal(t.month, 2), PadDecimal(t.day, 2);
    var h, mi, s := PadDecimal(t.hour, 2), PadDecimal(t.minute, 2), PadDecimal(t.second, 2);
    var r := Timestamp(t);
    var date, time := y + mo + d, h + mi + s;
    assert r == date + "_" + time;
    assert r[..8] == date && r[9..] == time;
    ThreeParts(y, mo, d);
    ThreeParts(h, mi, s);
    assert r[..4] == date[..4] && r[4..6] == date[4..6] && r[6..8] == date[6..];
    assert r[9..11] == time[..2] && r[11..13] == time[2..4] && r[13..] == time[4..];
  }

  /** The timestamp records the whole date and time, so no two seconds share one. */
  lemma TimestampRoundTrip(t: DateTime)
    requires ValidDateTime(t)
    ensures ParseTimestamp(Timestamp(t)) == Some(t)
  {
    TimestampFields(t);
    PadDecimalRoundTrip(t.year, 4);
    PadDecimalRoundTrip(t.month, 2);
    PadDecimalRoundTrip(t.day, 2);
    PadDecimalRoundTrip(t.hour, 2);
    PadDecimalRoundTrip(t.minute, 2);
    PadDecimalRoundTrip(t.second, 2);
  }

  /** `f"{db_name}_backup_{timestamp}.zip"`, the file name part of the path. */
  function BackupFileName(dbName: string, timestamp: string): string
  {
    dbName + "_backup_" + timestamp + ".zip"
  }

  /** `f"/tmp/{db_name}_backup_{timestamp}.zip"`. */
  function BackupFilePath(dbName: string, timestamp: string): string
  {
    "/tmp/" + BackupFileName(dbName, timestamp)
  }

  const BackupEndpoint := "/web/database/backup"

  /** `f"{odoo_server}/web/database/backup"`. */
  function BackupUrl(odooServer: string): string
  {
    odooServer + BackupEndpoint
  }

  /** The server part of a backup URL: the URL with the endpoint suffix removed. */
  function ServerOf(url: string): Option<string>
  {
    var n := |BackupEndpoint|;
    if |url| >= n && url[|url| - n..] == BackupEndpoint then Some(url[..|url| - n]) else None
  }

  /** The backup request goes to the configured server, whatever its text. */
  lemma BackupUrlRoundTrip(odooServer: string)
    ensures ServerOf(BackupUrl(odooServer)) == Some(odooServer)
  {
    var url := BackupUrl(odooServer);
    assert url[..|url| - |BackupEndpoint|] == odooServer;
    assert url[|url| - |BackupEndpoint|..] == BackupEndpoint;
  }

  /**
   * POSIX `os.path.basename`: the text after the last `/`; this is the
   * longest suffix without a `/`.
   */
  function BaseName(p: string): string
  {
    if p == [] then []
    else if p[|p| - 1] == '/' then []
    else BaseName(p[..|p| - 1]) + [p[|p| - 1]]
  }

  /** The base name is a suffix without `/`, and a `/` precedes it unless it is the whole path. */
  lemma {:induction false} BaseNameIsLastComponent(p: string)
    ensures var r := BaseName(p);
      '/' !in r && |r| <= |p| && r == p[|p| - |r|..] &&
      (|r| < |p| ==> p[|p| - |r| - 1] == '/')
    decreases |p|
  {
    if p != [] {
      var init, c := p[..|p| - 1], p[|p| - 1];
      assert p == init + [c];
      BaseNameIsLastComponent(init);
      BaseNameSnoc(init, c);
      if c != '/' {
        var r0 := BaseName(init);
        assert p[|p| - |r0| - 1..] == init[|init| - |r0|..] + [c];
        if |r0| < |init| {
          assert p[|p| - |r0| - 2] == init[|init| - |r0| - 1];
        }
      }
    }
  }

  /** Appending one character: a `/` empties the base name, anything else extends it. */
  lemma BaseNameSnoc(p: string, c: char)
    ensures BaseName(p + [c]) == if c == '/' then [] else BaseName(p) + [c]
  {
    assert (p + [c])[..|p|] == p;
  }

  lemma {:induction false} BaseNameConcat(x: string, y: string)
    ensures BaseName(x + y) == if '/' in y then BaseName(y) else BaseName(x) + y
    decreases |y|
  {
    if y == [] {
      assert x + y == x;
    } else {
      var init, last := y[..|y| - 1], y[|y| - 1];
      assert y == init + [last];
      assert x + y == (x + init) + [last];
      if last == '/' {
        BaseNameSnoc(x + init, last);
        BaseNameSnoc(init, last);
      } else {
        assert ('/' in y) == ('/' in init) by { assert y == init + [last]; }
        assert BaseName(x + y) == BaseName(x + init) + [last] by { BaseNameSnoc(x + init, last); }
        assert BaseName(y) == BaseName(init) + [last] by { BaseNameSnoc(init, last); }
        BaseNameConcat(x, init);
        if '/' !in init {
          assert BaseName(x) + init + [last] == BaseName(x) + y;
        }
      }
    }
  }

  lemma BaseNameOfJoin(dir: string, name: string, tail: string)
    requires '/' !in tail
    ensures BaseName(dir + name + tail) == (if '/' in name then BaseName(name) else BaseName(dir) + name) + tail
  {
    BaseNameConcat(dir + name, tail);
    BaseNameConcat(dir, name);
  }

  lemma ConcatRegroup(a: string, b: string, c: string, d: string)
    ensures a + b + c + d == a + (b + c + d)
  {
  }

  lemma SuffixWithoutSlash(timestamp: string)
    requires '/' !in timestamp
    ensures '/' !in "_backup_" + timestamp + ".zip"
  {
    var tail := "_backup_" + timestamp + ".zip";
    forall i | 0 <= i < |tail| ensures tail[i] != '/' {
      if 8 <= i < 8 + |timestamp| { assert tail[i] == timestamp[i - 8]; }
    }
  }

  /**
   * The uploaded file's name: the database name after its last `/`, then
   * `_backup_`, the timestamp and `.zip`.
   */
  lemma RemoteNameOfPath(dbName: string, timestamp: string)
    requires '/' !in timestamp
    ensures BaseName(BackupFilePath(dbName, timestamp)) == BaseName(dbName) + "_backup_" + timestamp + ".zip"
  {
    var dir, tail := "/tmp/", "_backup_" + timestamp + ".zip";
    assert BackupFilePath(dbName, timestamp) == dir + dbName + tail;
    SuffixWithoutSlash(timestamp);
    BaseNameOfJoin(dir, dbName, tail);
    assert BaseName(dir) == [];
    if '/' !in dbName {
      BaseNameWithoutSlash(dbName);
      assert [] + dbName == dbName;
    }
    ConcatRegroup(BaseName(dbName), "_backup_", timestamp, ".zip");
  }

  /** A path without `/` is its own base name. */
  lemma {:induction false} BaseNameWithoutSlash(p: string)
    requires '/' !in p
    ensures BaseName(p) == p
    decreases |p|
  {
    if p != [] {
      assert p[..|p| - 1] + [p[|p| - 1]] == p;
      BaseNameWithoutSlash(p[..|p| - 1]);
    }
  }

  /** For a database name without `/`, the uploaded name is the local path without `/tmp/`. */
  lemma RemoteNameOfPlainPath(dbName: string, timestamp: string)
    requires '/' !in timestamp && '/' !in dbName
    ensures BaseName(BackupFilePath(dbName, timestamp)) == BackupFilePath(dbName, timestamp)[|"/tmp/"|..]
  {
    var name := BackupFileName(dbName, timestamp);
    assert BackupFilePath(dbName, timestamp)[|"/tmp/"|..] == name;
    RemoteNameOfPath(dbName, timestamp);
    BaseNameWithoutSlash(dbName);
  }

  /** A timestamp holds only digits and `_`, so it never adds a path separator. */
  lemma TimestampHasNoSlash(t: DateTime)
    requires ValidDateTime(t)
    ensures '/' !in Timestamp(t)
  {
    var r := Timestamp(t);
    forall i | 0 <= i < |r|
      ensures r[i] != '/'
    {
      if i != 8 {
        assert IsDigit(r[i]);
      }
    }
  }

  /** For a database name without `/`, the file uploaded at time `t` is named as the local path minus `/tmp/`. */
  lemma RemoteNameOfRun(dbName: string, t: DateTime)
    requires ValidDateTime(t) && '/' !in dbName
    ensures BaseName(BackupFilePath(dbName, Timestamp(t))) == BackupFileName(dbName, Timestamp(t))
  {
    TimestampHasNoSlash(t);
    RemoteNameOfPlainPath(dbName, Timestamp(t));
    assert BackupFilePath(dbName, Timestamp(t))[|"/tmp/"|..] == BackupFileName(dbName, Timestamp(t));
  }

  /** Reads the database name and the time back out of a remote file name. */
  function ParseBackupName(name: string): Option<(string, DateTime)>
  {
    var n := |name|;
    if n < 27 || name[n - 27..n - 19] != "_backup_" || name[n - 4..] != ".zip" then None
    else
      match ParseTimestamp(name[n - 19..n - 4])
      case Some(t) => Some((name[..n - 27], t))
      case None => None
  }

  lemma BackupNameRoundTrip(dbName: string, t: DateTime)
    requires ValidDateTime(t)
    ensures ParseBackupName(BackupFileName(dbName, Timestamp(t))) == Some((dbName, t))
  {
    var ts := Timestamp(t);
    var name := BackupFileName(dbName, ts);
    var n := |name|;
    assert name == dbName + "_backup_" + ts + ".zip";
    assert name[..n - 27] == dbName;
    assert name[n - 27..n - 19] == "_backup_";
    assert name[n - 19..n - 4] == ts;
    assert name[n - 4..] == ".zip";
    TimestampRoundTrip(t);
  }

  /** Runs at different seconds, or for different databases, upload differently named files. */
  lemma BackupNamesDistinct(db1: string, t1: DateTime, db2: string, t2: DateTime)
    requires ValidDateTime(t1) && ValidDateTime(t2)
    requires db1 != db2 || t1 != t2
    ensures BackupFileName(db1, Timestamp(t1)) != BackupFileName(db2, Timestamp(t2))
  {
    BackupNameRoundTrip(db1, t1);
    BackupNameRoundTrip(db2, t2);
  }
}
