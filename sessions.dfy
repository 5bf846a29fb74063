/**
 * App\Models\SessionModel: QR tokens, the active test, the per-course
 * listing, the expiry sweep and the per-session attendance queries. The
 * clock (`DateTime`, `NOW()`) is the parameter `now`, and `random_bytes(32)`
 * is the parameter `random`.
 */
module Sessions {
  import opened Wrappers
  import opened Text
  import opened Json
  import opened Sql
  import opened Tables
  import opened Schema

  type byte = x: int | 0 <= x < 256

  /** The lowercase base16 alphabet of section 8 of RFC 4648, as `bin2hex` writes it. */
  predicate IsLowerHex(c: char)
  {
    ('0' <= c <= '9') || ('a' <= c <= 'f')
  }

  function HexDigit(n: int): (c: char)
    requires 0 <= n < 16
    ensures IsLowerHex(c)
  {
    if n < 10 then ('0' as int + n) as char else ('a' as int + n - 10) as char
  }

  function HexValue(c: char): (r: Option<int>)
    ensures r.Some? <==> IsLowerHex(c)
    ensures r.Some? ==> 0 <= r.value < 16 && HexDigit(r.value) == c
  {
    if '0' <= c <= '9' then Some(c as int - '0' as int)
    else if 'a' <= c <= 'f' then Some(c as int - 'a' as int + 10)
    else None
  }

  /** `bin2hex`: two digits per byte, high nibble first. */
  function HexEncode(bytes: seq<byte>): (s: string)
    ensures |s| == 2 * |bytes|
    ensures forall i :: 0 <= i < |s| ==> IsLowerHex(s[i])
    decreases |bytes|
  {
    if |bytes| == 0 then ""
    else [HexDigit(bytes[0] / 16), HexDigit(bytes[0] % 16)] + HexEncode(bytes[1..])
  }

  /** Base16 decoding over the lowercase alphabet; None for odd lengths or other characters. */
  function HexDecode(s: string): Option<seq<byte>>
    decreases |s|
  {
    if |s| == 0 then Some([])
    else if |s| == 1 then None
    else
      match (HexValue(s[0]), HexValue(s[1]), HexDecode(s[2..]))
      case (Some(high), Some(low), Some(rest)) => Some([high * 16 + low] + rest)
      case _ => None
  }

  /** Decoding undoes encoding. */
  lemma {:induction false} HexRoundTrip(bytes: seq<byte>)
    ensures HexDecode(HexEncode(bytes)) == Some(bytes)
    decreases |bytes|
  {
    if |bytes| > 0 {
      HexRoundTrip(bytes[1..]);
      HexDecodeCons(bytes[0], HexEncode(bytes[1..]), bytes[1..]);
      assert [bytes[0]] + bytes[1..] == bytes;
    }
  }

  // Decoding a byte's two digits in front of decodable text.
  lemma HexDecodeCons(b: byte, t: string, rest: seq<byte>)
    requires HexDecode(t) == Some(rest)
    ensures HexDecode([HexDigit(b / 16), HexDigit(b % 16)] + t) == Some([b] + rest)
  {
    var s := [HexDigit(b / 16), HexDigit(b % 16)] + t;
    assert s[2..] == t;
    HexValueOfDigit(b / 16);
    HexValueOfDigit(b % 16);
  }

  lemma HexValueOfDigit(n: int)
    requires 0 <= n < 16
    ensures HexValue(HexDigit(n)) == Some(n)
  {
  }

  /** Encoding undoes decoding: a decodable text is the encoding of what it decodes to. */
  lemma {:induction false} HexDecodeCanonical(s: string, bytes: seq<byte>)
    requires HexDecode(s) == Some(bytes)
    ensures HexEncode(bytes) == s
    decreases |s|
  {
    if |s| > 0 {
      var rest := HexDecode(s[2..]).value;
      HexDecodeCanonical(s[2..], rest);
      var high := HexValue(s[0]).value;
      var low := HexValue(s[1]).value;
      assert bytes == [high * 16 + low] + rest;
      assert (high * 16 + low) / 16 == high && (high * 16 + low) % 16 == low;
      assert s == [s[0], s[1]] + s[2..];
    }
  }

  /** generateQrToken: `bin2hex(random_bytes(32))`. */
  function GenerateQrToken(random: seq<byte>): (token: string)
    requires |random| == 32
    ensures |token| == 64
    ensures forall i :: 0 <= i < |token| ==> IsLowerHex(token[i])
    ensures HexDecode(token) == Some(random)
  {
    HexRoundTrip(random);
    HexEncode(random)
  }

  /** PHP's `empty()` on a decoded value. */
  predicate EmptyValue(v: Value)
  {
    match v
    case Null => true
    case Bool(b) => !b
    case Int(i) => i == 0
    case Str(s) => PhpEmpty(s)
    case List(items) => |items| == 0
    case Object(fields) => |fields| == 0
  }

  /** create's `if (empty($data['qr_token'])) $data['qr_token'] = ...`. */
  function WithToken(data: Fields, token: string): Fields
  {
    match Get(data, "qr_token")
    case Some(v) => if EmptyValue(v) then Put(data, "qr_token", Str(token)) else data
    case None => Put(data, "qr_token", Str(token))
  }

  /**
   * A supplied non-empty token is passed through with the rest of the data;
   * otherwise the generated token is set and every other key reads as before.
   */
  lemma WithTokenSpec(data: Fields, token: string)
    ensures var v := Get(data, "qr_token");
      v.Some? && !EmptyValue(v.value) ==> WithToken(data, token) == data
    ensures var v := Get(data, "qr_token");
      (v.None? || EmptyValue(v.value)) ==>
        && Get(WithToken(data, token), "qr_token") == Some(Str(token))
        && forall k :: k != "qr_token" ==> Get(WithToken(data, token), k) == Get(data, k)
  {
    PutProperties(data, "qr_token", Str(token));
  }

  /** create: the INSERT the parent create builds for the defaulted data. */
  function CreateSession(data: Fields, random: seq<byte>): Statement
    requires |random| == 32
  {
    CreateStatement("sessions", WithToken(data, GenerateQrToken(random)))
  }

  /**
   * create inserts into `sessions` binding the data by name. The bound
   * `qr_token` is the supplied one when it is not empty, and otherwise the
   * token generated from `random`, with every other key as supplied. Either
   * way the INSERT names `qr_token` and binds a non-empty token.
   */
  lemma CreateSessionSpec(data: Fields, random: seq<byte>)
    requires |random| == 32
    ensures CreateSession(data, random).params.ByName?
    ensures var bound := CreateSession(data, random).params.fields;
      var v := Get(data, "qr_token");
      && (v.Some? && !EmptyValue(v.value) ==> bound == data)
      && ((v.None? || EmptyValue(v.value)) ==>
        && Get(bound, "qr_token") == Some(Str(GenerateQrToken(random)))
        && forall k :: k != "qr_token" ==> Get(bound, k) == Get(data, k))
    ensures var bound := CreateSession(data, random).params.fields;
      && "qr_token" in KeysOf(bound)
      && !EmptyValue(Get(bound, "qr_token").value)
  {
    var token := GenerateQrToken(random);
    WithTokenSpec(data, token);
    assert CreateSession(data, random).params == ByName(WithToken(data, token));
    assert !PhpEmpty(token) by {
      assert token != "";
    }
  }

  /** isSessionActive: flagged active and not yet at its expiry instant. */
  predicate IsSessionActive(s: Session, now: int)
  {
    s.isActive && now < s.expiresAt
  }

  /** How the session queries read a row's columns. */
  function SessionColumn(s: Session, name: string): Option<Value>
  {
    if name == "course_id" then Some(Int(s.courseId))
    else if name == "is_active" then Some(Bool(s.isActive))
    else if name == "expires_at" then Some(Int(s.expiresAt))
    else if name == "qr_token" then Some(Str(s.qrToken))
    else None
  }

  function GetByCourseConditions(activeOnly: bool): seq<Condition>
  {
    [Bound("course_id")] + if activeOnly then [IsTrue("is_active"), AfterNow("expires_at")] else []
  }

  /** getByCourse: findAll on the course, and on being active when `activeOnly`. */
  function GetByCourse(courseId: int, activeOnly: bool := true): Statement
  {
    FindAllStatement("sessions", Texts(GetByCourseConditions(activeOnly)), Positional([Int(courseId)]))
  }

  /**
   * getByCourse binds only the course id, to its one placeholder (see
   * TextsHoles), and selects
   * a row exactly when it belongs to the course and, with `activeOnly`, when
   * isSessionActive holds for it at the same instant.
   */
  lemma GetByCourseSpec(courseId: int, activeOnly: bool, now: int, s: Session)
    ensures GetByCourse(courseId, activeOnly).params == Positional([Int(courseId)])
    ensures PlainColumns(GetByCourseConditions(activeOnly))
    ensures Aligned(GetByCourseConditions(activeOnly), [Int(courseId)])
    ensures Satisfies(GetByCourseConditions(activeOnly), [Int(courseId)], SessionColumn, now, s)
      <==> s.courseId == courseId && (!activeOnly || IsSessionActive(s, now))
  {
    var conds := GetByCourseConditions(activeOnly);
    var rest: seq<Condition> := if activeOnly then [IsTrue("is_active"), AfterNow("expires_at")] else [];
    var none: seq<Value> := [];
    GetByCourseBinds(courseId, activeOnly);
    assert conds == [Bound("course_id")] + rest;
    assert [Int(courseId)] == [Int(courseId)] + none;
    CourseConditionHolds(courseId, now, s);
    SatisfiesAppend([Bound("course_id")], rest, [Int(courseId)], none, SessionColumn, now, s);
    if activeOnly {
      ActiveConditionsHold(now, s);
    }
  }

  lemma GetByCourseBinds(courseId: int, activeOnly: bool)
    ensures GetByCourse(courseId, activeOnly).params == Positional([Int(courseId)])
    ensures PlainColumns(GetByCourseConditions(activeOnly))
  {
    var conds := GetByCourseConditions(activeOnly);
    assert '?' !in "course_id" && '?' !in "is_active" && '?' !in "expires_at";
    forall i | 0 <= i < |conds| ensures '?' !in conds[i].column {
      if i == 1 {
        assert conds[i] == IsTrue("is_active");
      } else if i == 2 {
        assert conds[i] == AfterNow("expires_at");
      }
    }
  }

  // The course condition binds the course id and holds on the course's rows.
  lemma CourseConditionHolds(courseId: int, now: int, s: Session)
    ensures BindCount([Bound("course_id")]) == 1
    ensures Satisfies([Bound("course_id")], [Int(courseId)], SessionColumn, now, s) <==> s.courseId == courseId
  {
    SatisfiesOne(Bound("course_id"), [Int(courseId)], SessionColumn, now, s);
    assert SessionColumn(s, "course_id") == Some(Int(s.courseId));
  }

  // The two activity conditions bind nothing and hold exactly on the active rows.
  lemma ActiveConditionsHold(now: int, s: Session)
    ensures BindCount([IsTrue("is_active"), AfterNow("expires_at")]) == 0
    ensures Satisfies([IsTrue("is_active"), AfterNow("expires_at")], [], SessionColumn, now, s) <==> IsSessionActive(s, now)
  {
    var none: seq<Value> := [];
    assert [IsTrue("is_active"), AfterNow("expires_at")] == [IsTrue("is_active")] + [AfterNow("expires_at")];
    SatisfiesOne(IsTrue("is_active"), none, SessionColumn, now, s);
    SatisfiesOne(AfterNow("expires_at"), none, SessionColumn, now, s);
    SatisfiesAppend([IsTrue("is_active")], [AfterNow("expires_at")], none, none, SessionColumn, now, s);
    assert none + none == none;
    assert SessionColumn(s, "is_active") == Some(Bool(s.isActive));
    assert SessionColumn(s, "expires_at") == Some(Int(s.expiresAt));
  }

  /** findByQrToken: the first row carrying the token. */
  function FindByQrToken(rows: seq<Session>, token: string): Option<Session>
  {
    First(rows, (s: Session) => s.qrToken == token)
  }

  /**
   * findByQrToken's one condition binds the token and selects the rows that
   * carry it; the row found carries it, and none is found only when no row does.
   */
  lemma FindByQrTokenSpec(rows: seq<Session>, token: string, now: int, s: Session)
    ensures Aligned([Bound("qr_token")], [Str(token)])
    ensures Satisfies([Bound("qr_token")], [Str(token)], SessionColumn, now, s) <==> s.qrToken == token
    ensures var r := FindByQrToken(rows, token);
      && (r.Some? ==> r.value.qrToken == token && r.value in rows)
      && (r.None? <==> forall i :: 0 <= i < |rows| ==> rows[i].qrToken != token)
  {
    SatisfiesOne(Bound("qr_token"), [Str(token)], SessionColumn, now, s);
    assert SessionColumn(s, "qr_token") == Some(Str(s.qrToken));
  }

  /** The rows expireOldSessions updates: `is_active = TRUE AND expires_at <= NOW()`. */
  predicate Expiring(s: Session, now: int)
  {
    s.isActive && s.expiresAt <= now
  }

  function ExpiringAt(now: int): Session -> bool
  {
    (s: Session) => Expiring(s, now)
  }

  /** `SET is_active = FALSE` on one row the WHERE selects. */
  function Expire(s: Session, now: int): Session
  {
    if Expiring(s, now) then s.(isActive := false) else s
  }

  /** The table after expireOldSessions. */
  function Sweep(rows: seq<Session>, now: int): seq<Session>
  {
    seq(|rows|, i requires 0 <= i < |rows| => Expire(rows[i], now))
  }

  /**
   * The sweep deactivates exactly the active rows at or past their expiry and
   * leaves every other row as it was; afterwards no row is active and expired,
   * and isSessionActive at that instant reads the same on every row.
   */
  lemma SweepSpec(rows: seq<Session>, now: int)
    ensures var r := Sweep(rows, now);
      && |r| == |rows|
      && (forall i :: 0 <= i < |rows| && Expiring(rows[i], now) ==> r[i] == rows[i].(isActive := false))
      && (forall i :: 0 <= i < |rows| && !Expiring(rows[i], now) ==> r[i] == rows[i])
      && (forall i :: 0 <= i < |r| ==> !Expiring(r[i], now))
      && (forall i :: 0 <= i < |r| ==> IsSessionActive(r[i], now) == IsSessionActive(rows[i], now))
  {
  }

  /** A second sweep at the same instant changes nothing and counts no row. */
  lemma SweepIdempotent(rows: seq<Session>, now: int)
    ensures Sweep(Sweep(rows, now), now) == Sweep(rows, now)
    ensures CountWhere(Sweep(rows, now), ExpiringAt(now)) == 0
  {
    var r := Sweep(rows, now);
    SweepSpec(rows, now);
    CountWherePositive(r, ExpiringAt(now));
  }

  /** expireOldSessions: the bulk update, returning the number of rows it changed. */
  method ExpireOldSessions(sessions: array<Session>, now: int) returns (changed: nat)
    modifies sessions
    ensures sessions[..] == Sweep(old(sessions[..]), now)
    ensures changed == CountWhere(old(sessions[..]), ExpiringAt(now))
  {
    ghost var rows := sessions[..];
    changed := 0;
    for i := 0 to sessions.Length
      invariant forall j :: 0 <= j < i ==> sessions[j] == Expire(rows[j], now)
      invariant forall j :: i <= j < sessions.Length ==> sessions[j] == rows[j]
      invariant changed == CountWhere(rows[..i], ExpiringAt(now))
    {
      SweepCountStep(rows, i, now);
      if Expiring(sessions[i], now) {
        sessions[i] := sessions[i].(isActive := false);
        changed := changed + 1;
      }
    }
    assert rows[..sessions.Length] == rows;
  }

  // The count of expiring rows, one row further.
  lemma SweepCountStep(rows: seq<Session>, i: nat, now: int)
    requires i < |rows|
    ensures CountWhere(rows[..i + 1], ExpiringAt(now))
      == CountWhere(rows[..i], ExpiringAt(now)) + if Expiring(rows[i], now) then 1 else 0
  {
    assert rows[..i + 1] == rows[..i] + [rows[i]];
    FilterAppend(rows[..i], [rows[i]], ExpiringAt(now));
    assert [rows[i]][1..] == [];
  }

  /** `ORDER BY session_date DESC, start_time DESC`. */
  function SessionTimeDesc(): (Session, Session) -> bool
  {
    ThenBy(On(IntDesc(), (s: Session) => s.sessionDate), On(IntDesc(), (s: Session) => s.startTime))
  }

  lemma SessionTimeDescIsPreorder()
    ensures TotalPreorder(SessionTimeDesc())
  {
    IntDescIsPreorder();
    OnIsPreorder(IntDesc(), (s: Session) => s.sessionDate);
    OnIsPreorder(IntDesc(), (s: Session) => s.startTime);
    ThenByIsPreorder(On(IntDesc(), (s: Session) => s.sessionDate), On(IntDesc(), (s: Session) => s.startTime));
  }

  function OfSession(sessionId: int): Attendance -> bool
  {
    (a: Attendance) => a.sessionId == sessionId
  }

  /** getAttendanceCount: the attendance rows of the session, 0 when there are none. */
  function AttendanceCount(attendance: seq<Attendance>, sessionId: int): (n: nat)
    ensures n <= |attendance|
    ensures n == 0 <==> forall i :: 0 <= i < |attendance| ==> attendance[i].sessionId != sessionId
  {
    CountWherePositive(attendance, OfSession(sessionId));
    CountWhere(attendance, OfSession(sessionId))
  }

  function ByStudentRow(): (Attendance, Student) -> bool
  {
    (a: Attendance, s: Student) => a.studentId == s.id
  }

  function ByScanDesc(): ((Attendance, Student), (Attendance, Student)) -> bool
  {
    On(IntDesc(), (r: (Attendance, Student)) => r.0.scannedAt)
  }

  /**
   * getAttendance: the session's attendance rows with their students, latest
   * scan first; exactly the rows of the join, each as often as the join has it.
   */
  function AttendanceList(attendance: seq<Attendance>, students: seq<Student>, sessionId: int)
    : (r: seq<(Attendance, Student)>)
    ensures SortedBy(r, ByScanDesc())
    ensures multiset(r) == multiset(InnerJoin(Filter(attendance, OfSession(sessionId)), students, ByStudentRow()))
    ensures forall k :: 0 <= k < |r| ==> r[k].0.sessionId == sessionId && r[k].0.studentId == r[k].1.id
  {
    var joined := InnerJoin(Filter(attendance, OfSession(sessionId)), students, ByStudentRow());
    IntDescIsPreorder();
    OnIsPreorder(IntDesc(), (r: (Attendance, Student)) => r.0.scannedAt);
    var r := SortBy(joined, ByScanDesc());
    JoinRows(Filter(attendance, OfSession(sessionId)), students, ByStudentRow(), r);
    r
  }
}
