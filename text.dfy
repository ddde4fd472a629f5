/** Text as SQLite compares it, substring search, and the two timestamp texts the
    session table mixes: JavaScript's `Date.prototype.toISOString` and SQLite's
    `datetime('now')` / `CURRENT_TIMESTAMP`. */
module Text {

  /** Milliseconds in one UTC day. */
  const DayMs: int := 86400000

  /** SQLite's BINARY collation: memcmp on the UTF-8 bytes. UTF-8 preserves code-point
      order, so this is lexicographic order on characters, a proper prefix being smaller. */
  predicate Less(a: string, b: string)
    decreases |a|
  {
    if a == [] then b != []
    else if b == [] then false
    else if a[0] != b[0] then a[0] < b[0]
    else Less(a[1..], b[1..])
  }

  lemma {:induction false} LessIrreflexive(a: string)
    ensures !Less(a, a)
    decreases |a|
  {
    if a != [] {
      LessIrreflexive(a[1..]);
    }
  }

  lemma {:induction false} LessTransitive(a: string, b: string, c: string)
    requires Less(a, b) && Less(b, c)
    ensures Less(a, c)
    decreases |a|
  {
    if a != [] && b != [] && c != [] && a[0] == b[0] && b[0] == c[0] {
      LessTransitive(a[1..], b[1..], c[1..]);
    }
  }

  lemma {:induction false} LessTotal(a: string, b: string)
    ensures a == b || Less(a, b) || Less(b, a)
    decreases |a|
  {
    if a != [] && b != [] && a[0] == b[0] {
      LessTotal(a[1..], b[1..]);
      if a[1..] == b[1..] {
        assert a == [a[0]] + a[1..] && b == [b[0]] + b[1..];
      }
    }
  }

  /** `s.includes(sub)` in JavaScript. */
  predicate Includes(s: string, sub: string)
    decreases |s|
  {
    sub <= s || (s != [] && Includes(s[1..], sub))
  }

  function DigitChar(d: int): (c: char)
    requires 0 <= d < 10
    ensures '0' <= c <= '9'
  {
    (48 + d) as char
  }

  /** The last `width` decimal digits of `n`, zero-padded. */
  function Digits(n: int, width: nat): (s: string)
    ensures |s| == width
    ensures forall i :: 0 <= i < width ==> '0' <= s[i] <= '9'
    decreases width
  {
    if width == 0 then [] else Digits(n / 10, width - 1) + [DigitChar(n % 10)]
  }

  /** Proleptic Gregorian (year, month, day) of a day number counted from 1970-01-01;
      `/` and `%` are floor operations here because every divisor is positive. */
  function CivilFromDays(days: int): (int, int, int) {
    var z := days + 719468;
    var era := z / 146097;
    var doe := z - era * 146097;
    var yoe := (doe - doe / 1460 + doe / 36524 - doe / 146096) / 365;
    var doy := doe - (365 * yoe + yoe / 4 - yoe / 100);
    var mp := (5 * doy + 2) / 153;
    var d := doy - (153 * mp + 2) / 5 + 1;
    var m := if mp < 10 then mp + 3 else mp - 9;
    var y := yoe + era * 400;
    (if m <= 2 then y + 1 else y, m, d)
  }

  /** "YYYY-MM-DD" of the UTC day holding instant `ms` (milliseconds since the epoch). */
  function DatePart(ms: int): (s: string)
    ensures |s| == 10
  {
    var (y, m, d) := CivilFromDays(ms / DayMs);
    Digits(y, 4) + "-" + Digits(m, 2) + "-" + Digits(d, 2)
  }

  /** "HH:MM:SS" of instant `ms` within its UTC day. */
  function ClockPart(ms: int): (s: string)
    ensures |s| == 8
  {
    var t := ms % DayMs;
    Digits(t / 3600000, 2) + ":" + Digits(t / 60000 % 60, 2) + ":" + Digits(t / 1000 % 60, 2)
  }

  /** `new Date(ms).toISOString()`: "YYYY-MM-DDTHH:MM:SS.sssZ". */
  function IsoString(ms: int): (s: string)
    ensures |s| == 24 && s[..10] == DatePart(ms) && s[10] == 'T'
  {
    DatePart(ms) + "T" + ClockPart(ms) + "." + Digits(ms % 1000, 3) + "Z"
  }

  /** SQLite's `datetime('now')` and `CURRENT_TIMESTAMP` at instant `ms`: "YYYY-MM-DD HH:MM:SS". */
  function SqliteDateTime(ms: int): (s: string)
    ensures |s| == 19 && s[..10] == DatePart(ms) && s[10] == ' '
  {
    DatePart(ms) + " " + ClockPart(ms)
  }

  /** Comparing a space-separated text with a 'T'-separated text whose date prefixes have
      the same length: since ' ' sorts before 'T', only the dates decide. */
  lemma {:induction false} SeparatorDecides(d1: string, t1: string, d2: string, t2: string)
    requires |d1| == |d2|
    ensures Less(d1 + " " + t1, d2 + "T" + t2) <==> (d1 == d2 || Less(d1, d2))
    decreases |d1|
  {
    var a, b := d1 + " " + t1, d2 + "T" + t2;
    if d1 == [] {
      assert a[0] == ' ' && b[0] == 'T';
    } else {
      assert a[0] == d1[0] && b[0] == d2[0];
      if d1[0] == d2[0] {
        assert a[1..] == d1[1..] + " " + t1 && b[1..] == d2[1..] + "T" + t2;
        SeparatorDecides(d1[1..], t1, d2[1..], t2);
        if d1[1..] == d2[1..] {
          assert d1 == [d1[0]] + d1[1..] && d2 == [d2[0]] + d2[1..];
        }
      }
    }
  }
}
