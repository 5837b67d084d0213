/**
 * User ids handed out at sign-up: "UID" followed by a number written with
 * at least three digits. The next id is one more than the number in the
 * latest id, where "latest" is the greatest id in plain character order.
 */
module Signup {
  import opened Wrappers
  import opened Decimal

  // ---------------------------------------------------------------------
  // Character order on ids, as `ORDER BY userid DESC` uses it

  /** `a` sorts strictly before `b`: a proper prefix, or smaller at the first difference. */
  predicate StrLess(a: string, b: string)
  {
    if a == [] then b != []
    else if b == [] then false
    else if a[0] != b[0] then a[0] < b[0]
    else StrLess(a[1..], b[1..])
  }

  lemma {:induction false} StrLessIrreflexive(a: string)
    ensures !StrLess(a, a)
  {
    if a != [] {
      StrLessIrreflexive(a[1..]);
    }
  }

  lemma {:induction false} StrLessTrans(a: string, b: string, c: string)
    requires StrLess(a, b) && StrLess(b, c)
    ensures StrLess(a, c)
  {
    if a != [] && a[0] == b[0] && b[0] == c[0] {
      StrLessTrans(a[1..], b[1..], c[1..]);
    }
  }

  lemma {:induction false} StrLessTotal(a: string, b: string)
    ensures a == b || StrLess(a, b) || StrLess(b, a)
  {
    if a != [] && b != [] && a[0] == b[0] {
      StrLessTotal(a[1..], b[1..]);
      if a[1..] == b[1..] {
        assert a == [a[0]] + a[1..] && b == [b[0]] + b[1..];
      }
    }
  }

  /** Strings with a common prefix sort as what follows the prefix does. */
  lemma {:induction false} StrLessCommonPrefix(p: string, a: string, b: string)
    ensures StrLess(p + a, p + b) <==> StrLess(a, b)
  {
    if p != [] {
      assert (p + a)[0] == p[0] && (p + b)[0] == p[0];
      assert (p + a)[1..] == p[1..] + a && (p + b)[1..] == p[1..] + b;
      StrLessCommonPrefix(p[1..], a, b);
    } else {
      assert p + a == a && p + b == b;
    }
  }

  /**
   * The user sorted first by `userid` descending: the greatest id in
   * character order, or none when there is no user.
   */
  function LatestUserId(ids: seq<string>): (r: Option<string>)
    ensures r.None? <==> ids == []
    ensures r.Some? ==> r.value in ids && forall x :: x in ids ==> x == r.value || StrLess(x, r.value)
  {
    if ids == [] then None
    else
      var rest := LatestUserId(ids[1..]);
      if rest.None? then Some(ids[0])
      else if StrLess(rest.value, ids[0]) then
        assert forall x :: x in ids[1..] ==> x == ids[0] || StrLess(x, ids[0]) by {
          forall x | x in ids[1..]
            ensures x == ids[0] || StrLess(x, ids[0])
          {
            if x != rest.value {
              StrLessTrans(x, rest.value, ids[0]);
            }
          }
        }
        Some(ids[0])
      else
        StrLessTotal(rest.value, ids[0]);
        rest
  }

  /**
   * The latest id does not depend on how it is searched for: an id that no
   * other id exceeds is the one `LatestUserId` finds.
   */
  lemma LatestIsUnique(ids: seq<string>, x: string)
    requires x in ids && forall y :: y in ids ==> y == x || StrLess(y, x)
    ensures LatestUserId(ids) == Some(x)
  {
    var l := LatestUserId(ids).value;
    if l != x {
      assert StrLess(l, x) && StrLess(x, l);
      StrLessTrans(x, l, x);
      StrLessIrreflexive(x);
    }
  }

  // ---------------------------------------------------------------------
  // Reading and writing the number in an id

  /** `s.replace("UID", "")`: every occurrence removed, scanning from the left. */
  function StripUid(s: string): (r: string)
    ensures |r| <= |s|
  {
    if |s| >= 3 && s[..3] == "UID" then StripUid(s[3..])
    else if s == [] then []
    else [s[0]] + StripUid(s[1..])
  }

  lemma {:induction false} StripUidWithoutU(s: string)
    requires forall i :: 0 <= i < |s| ==> s[i] != 'U'
    ensures StripUid(s) == s
  {
    if s != [] {
      assert |s| >= 3 ==> s[..3][0] == s[0];
      StripUidWithoutU(s[1..]);
    }
  }

  /** `int(s)`: an optional sign followed by one or more ASCII digits. */
  function ParseInt(s: string): (r: Option<int>)
    ensures r.Some? <==> (|s| >= 1 && AllDigits(s)) || (|s| >= 2 && (s[0] == '-' || s[0] == '+') && AllDigits(s[1..]))
    ensures r.Some? && |s| >= 1 && s[0] != '-' ==> r.value >= 0
  {
    if |s| >= 2 && (s[0] == '-' || s[0] == '+') && AllDigits(s[1..]) then
      var v: int := Value(s[1..]);
      Some(if s[0] == '-' then -v else v)
    else if |s| >= 1 && AllDigits(s) then Some(Value(s))
    else None
  }

  /**
   * `f"{n:03d}"`: the digits of `n` padded with zeros to a width of three,
   * the minus sign of a negative number counting towards the width.
   */
  function Format03(n: int): (r: string)
    ensures |r| >= 3
    ensures n >= 0 ==> AllDigits(r) && Value(r) == n
  {
    if n >= 0 then ZeroPad(Show(n), 3) else "-" + ZeroPad(Show(-n), 2)
  }

  /** The id of number `n`: "UID" and at least three more characters. */
  function Uid(n: int): (r: string)
    ensures |r| >= 6 && r[..3] == "UID"
  {
    "UID" + Format03(n)
  }

  /** Reading back a formatted number gives the number, for every integer. */
  lemma ParseFormat03(n: int)
    ensures ParseInt(Format03(n)) == Some(n)
  {
    var s := Format03(n);
    if n < 0 {
      assert s[1..] == ZeroPad(Show(-n), 2);
    }
  }

  /** Stripping "UID" from an id and parsing what remains gives its number back. */
  lemma UidRoundTrip(n: int)
    ensures ParseInt(StripUid(Uid(n))) == Some(n)
  {
    var s := Format03(n);
    assert Uid(n)[..3] == "UID" && Uid(n)[3..] == s;
    forall i | 0 <= i < |s|
      ensures s[i] != 'U'
    {
      if n < 0 && i > 0 {
        assert s[i] == ZeroPad(Show(-n), 2)[i - 1];
      }
    }
    StripUidWithoutU(s);
    ParseFormat03(n);
  }

  lemma UidInjective(n: int, m: int)
    requires Uid(n) == Uid(m)
    ensures n == m
  {
    UidRoundTrip(n);
    UidRoundTrip(m);
  }

  /** The first id is the one for number 1. */
  lemma FirstUid()
    ensures Uid(1) == "UID001"
  {
    assert Show(1) == "1";
    assert Zeros(2) == "00";
  }

  /**
   * Why a sign-up fails: an id whose remainder after "UID" is not a number
   * (`int` raises), or a new id that is already taken (the insert breaks
   * the user id's primary key).
   */
  datatype SignupError = NotANumber(userid: string) | DuplicateId(userid: string)

  /**
   * The id for a new user, given the latest existing one: "UID001" when
   * there is none, otherwise the number after "UID" is stripped, read and
   * increased by one. An id whose remainder is not a number is an error.
   */
  function NextUserId(latest: Option<string>): (r: Result<string, SignupError>)
    ensures latest.None? ==> r == Ok(Uid(1))
    ensures latest.Some? ==> (r.Err? <==> ParseInt(StripUid(latest.value)).None?)
    ensures r.Err? ==> r.error == NotANumber(latest.value)
  {
    match latest
    case None => FirstUid(); Ok("UID001")
    case Some(id) =>
      match ParseInt(StripUid(id))
      case None => Err(NotANumber(id))
      case Some(k) => Ok(Uid(k + 1))
  }

  /** After the id for number `n` comes the id for `n + 1`. */
  lemma NextAfterUid(n: int)
    ensures NextUserId(Some(Uid(n))) == Ok(Uid(n + 1))
  {
    UidRoundTrip(n);
  }

  // ---------------------------------------------------------------------
  // Character order against numeric order

  lemma ThreeDigitValue(s: string)
    requires |s| == 3 && AllDigits(s)
    ensures Value(s) == 100 * DigitOf(s[0]) + 10 * DigitOf(s[1]) + DigitOf(s[2])
  {
    assert s[..|s| - 1] == s[..2] && s[..2][..1] == s[..1] && s[..1][..0] == [];
    assert Value(s[..1]) == DigitOf(s[0]);
    assert Value(s[..2]) == 10 * DigitOf(s[0]) + DigitOf(s[1]);
  }

  lemma ShowBelowThousand(n: nat)
    requires n < 1000
    ensures |Show(n)| <= 3
  {
    if n >= 10 {
      assert |Show(n)| == |Show(n / 10)| + 1;
      if n / 10 >= 10 {
        assert |Show(n / 10)| == |Show(n / 100)| + 1;
      }
    }
  }

  /** On three characters, the order compares the first, then the second, then the third. */
  lemma StrLessThree(a: string, b: string)
    requires |a| == 3 && |b| == 3
    ensures StrLess(a, b) <==>
      a[0] < b[0] || (a[0] == b[0] && (a[1] < b[1] || (a[1] == b[1] && a[2] < b[2])))
  {
    var a1, b1 := a[1..], b[1..];
    var a2, b2 := a1[1..], b1[1..];
    assert a1[0] == a[1] && b1[0] == b[1] && a2[0] == a[2] && b2[0] == b[2];
    assert a2[1..] == [] && b2[1..] == [];
    assert StrLess(a2, b2) <==> a2[0] < b2[0];
  }

  lemma LexDigits(a0: int, a1: int, a2: int, b0: int, b1: int, b2: int)
    requires 0 <= a0 <= 9 && 0 <= a1 <= 9 && 0 <= a2 <= 9
    requires 0 <= b0 <= 9 && 0 <= b1 <= 9 && 0 <= b2 <= 9
    ensures (a0 < b0 || (a0 == b0 && (a1 < b1 || (a1 == b1 && a2 < b2))))
      <==> 100 * a0 + 10 * a1 + a2 < 100 * b0 + 10 * b1 + b2
  {
  }

  /** On three digits, character order is numeric order. */
  lemma ThreeDigitOrder(a: string, b: string)
    requires |a| == 3 && |b| == 3 && AllDigits(a) && AllDigits(b)
    ensures StrLess(a, b) <==> Value(a) < Value(b)
  {
    ThreeDigitValue(a);
    ThreeDigitValue(b);
    StrLessThree(a, b);
    assert IsDigit(a[0]) && IsDigit(a[1]) && IsDigit(a[2]);
    assert IsDigit(b[0]) && IsDigit(b[1]) && IsDigit(b[2]);
    LexDigits(DigitOf(a[0]), DigitOf(a[1]), DigitOf(a[2]), DigitOf(b[0]), DigitOf(b[1]), DigitOf(b[2]));
  }

  /**
   * For numbers from 0 to 999 the ids sort in character order exactly as
   * their numbers do, which is what picking the latest id relies on.
   */
  lemma UidOrder(n: int, m: int)
    requires 0 <= n <= 999 && 0 <= m <= 999
    ensures StrLess(Uid(n), Uid(m)) <==> n < m
  {
    ShowBelowThousand(n);
    ShowBelowThousand(m);
    StrLessCommonPrefix("UID", Format03(n), Format03(m));
    ThreeDigitOrder(Format03(n), Format03(m));
  }

  // ---------------------------------------------------------------------
  // The next id among existing ones

  /** The ids of users numbered `ns`, in order. */
  function UidsOf(ns: seq<int>): (ids: seq<string>)
    ensures |ids| == |ns| && forall i :: 0 <= i < |ns| ==> ids[i] == Uid(ns[i])
  {
    seq(|ns|, i requires 0 <= i < |ns| => Uid(ns[i]))
  }

  /** Every id read back to its number, or the first id that is not a number. */
  function ParseIds(ids: seq<string>): (r: Result<seq<int>, SignupError>)
    ensures r.Ok? ==> |r.value| == |ids|
    ensures r.Err? ==> r.error.NotANumber? && r.error.userid in ids
    ensures r.Err? ==> ParseInt(StripUid(r.error.userid)).None?
    ensures r.Ok? <==> forall i :: 0 <= i < |ids| ==> ParseInt(StripUid(ids[i])).Some?
  {
    if ids == [] then Ok([])
    else
      match ParseInt(StripUid(ids[0]))
      case None => Err(NotANumber(ids[0]))
      case Some(k) =>
        match ParseIds(ids[1..])
        case Err(e) => Err(e)
        case Ok(ks) => Ok([k] + ks)
  }

  lemma ParseUids(ns: seq<int>)
    ensures ParseIds(UidsOf(ns)) == Ok(ns)
  {
    var ids := UidsOf(ns);
    forall i | 0 <= i < |ns|
      ensures ParseInt(StripUid(ids[i])) == Some(ns[i])
    {
      UidRoundTrip(ns[i]);
    }
    ParseAll(ids, ns);
  }

  /** When every id reads back to its number, the whole list does. */
  lemma {:induction false} ParseAll(ids: seq<string>, ns: seq<int>)
    requires |ids| == |ns|
    requires forall i :: 0 <= i < |ids| ==> ParseInt(StripUid(ids[i])) == Some(ns[i])
    ensures ParseIds(ids) == Ok(ns)
  {
    if ids != [] {
      assert forall i :: 0 <= i < |ids| - 1 ==> ids[1..][i] == ids[i + 1] && ns[1..][i] == ns[i + 1];
      ParseAll(ids[1..], ns[1..]);
      assert ParseInt(StripUid(ids[0])) == Some(ns[0]);
      assert [ns[0]] + ns[1..] == ns;
    }
  }

  function MaxOf(ns: seq<int>): (m: int)
    requires ns != []
    ensures m in ns && forall i :: 0 <= i < |ns| ==> ns[i] <= m
  {
    if |ns| == 1 then ns[0]
    else
      var rest := MaxOf(ns[1..]);
      assert forall i :: 1 <= i < |ns| ==> ns[i] == ns[1..][i - 1];
      if ns[0] >= rest then ns[0] else rest
  }

  /**
   * The next id taken from the greatest number among all ids rather than
   * from the id that sorts last as text.
   */
  function NextFreeUserId(ids: seq<string>): (r: Result<string, SignupError>)
    ensures ids == [] ==> r == Ok(Uid(1))
    ensures r.Err? ==> r.error.NotANumber? && r.error.userid in ids
    ensures r.Err? ==> ParseInt(StripUid(r.error.userid)).None?
    ensures r.Ok? <==> forall i :: 0 <= i < |ids| ==> ParseInt(StripUid(ids[i])).Some?
  {
    if ids == [] then FirstUid(); Ok("UID001")
    else
      match ParseIds(ids)
      case Err(e) => Err(e)
      case Ok(ns) => Ok(Uid(MaxOf(ns) + 1))
  }

  /**
   * The number-based next id is never an id already in use, whatever the
   * ids are and however many digits their numbers have.
   */
  lemma NextFreeUserIdIsFresh(ids: seq<string>)
    ensures var r := NextFreeUserId(ids);
      r.Ok? ==> r.value !in ids
  {
    if ids != [] && ParseIds(ids).Ok? {
      var ns := ParseIds(ids).value;
      NextFreeFromParsed(ids, ns);
      var m := MaxOf(ns);
      forall i | 0 <= i < |ids|
        ensures ids[i] != Uid(m + 1)
      {
        AboveAllIds(ids, ns, i);
      }
    }
  }

  /** No id in use holds a number above the greatest one. */
  lemma AboveAllIds(ids: seq<string>, ns: seq<int>, i: int)
    requires ParseIds(ids) == Ok(ns) && ns != [] && 0 <= i < |ids|
    ensures ids[i] != Uid(MaxOf(ns) + 1)
  {
    ParseIdsAt(ids, ns, i);
    if ids[i] == Uid(MaxOf(ns) + 1) {
      UidRoundTrip(MaxOf(ns) + 1);
    }
  }

  /** Each id reads back to the number at its own position. */
  lemma {:induction false} ParseIdsAt(ids: seq<string>, ns: seq<int>, i: int)
    requires ParseIds(ids) == Ok(ns) && 0 <= i < |ids|
    ensures ParseInt(StripUid(ids[i])) == Some(ns[i])
  {
    var ks := ParseIds(ids[1..]).value;
    assert ns == [ParseInt(StripUid(ids[0])).value] + ks;
    if i > 0 {
      ParseIdsAt(ids[1..], ks, i - 1);
    }
  }

  /** The number-based next id once every id has been read. */
  lemma NextFreeFromParsed(ids: seq<string>, ns: seq<int>)
    requires ids != [] && ParseIds(ids) == Ok(ns)
    ensures ns != []
    ensures NextFreeUserId(ids) == Ok(Uid(MaxOf(ns) + 1))
  {
  }

  /** Ids that are all numbers always get a next id. */
  lemma NumberedIdsHaveNext(ns: seq<int>)
    ensures NextFreeUserId(UidsOf(ns)).Ok?
  {
    if ns != [] {
      ParseUids(ns);
      NextFreeFromParsed(UidsOf(ns), ns);
    }
  }

  /**
   * While every number has at most three digits, the id that sorts last as
   * text holds the greatest number, so the next id as written is the
   * number-based one, and so it is fresh.
   */
  lemma NextUserIdBelowThousand(ns: seq<int>)
    requires forall i :: 0 <= i < |ns| ==> 0 <= ns[i] <= 999
    ensures NextUserId(LatestUserId(UidsOf(ns))) == NextFreeUserId(UidsOf(ns))
  {
    var ids := UidsOf(ns);
    if ns == [] {
      assert |ids| == 0;
    } else {
      ParseUids(ns);
      LatestIsMax(ns);
      SameNextId(ids, ns);
    }
  }

  /** When the last id as text holds the greatest number, both ways give the same next id. */
  lemma SameNextId(ids: seq<string>, ns: seq<int>)
    requires ids != [] && ns != [] && ParseIds(ids) == Ok(ns)
    requires LatestUserId(ids).Some? && ParseInt(StripUid(LatestUserId(ids).value)) == Some(MaxOf(ns))
    ensures NextUserId(LatestUserId(ids)) == NextFreeUserId(ids)
  {
    var m := MaxOf(ns);
    assert NextUserId(LatestUserId(ids)) == Ok(Uid(m + 1));
    NextFreeFromParsed(ids, ns);
  }

  /** Up to three digits, the id that sorts last holds the greatest number. */
  lemma LatestIsMax(ns: seq<int>)
    requires ns != [] && forall i :: 0 <= i < |ns| ==> 0 <= ns[i] <= 999
    ensures LatestUserId(UidsOf(ns)).Some?
    ensures ParseInt(StripUid(LatestUserId(UidsOf(ns)).value)) == Some(MaxOf(ns))
  {
    var ids := UidsOf(ns);
    var latest := LatestUserId(ids).value;
    var j :| 0 <= j < |ids| && ids[j] == latest;
    forall i | 0 <= i < |ns|
      ensures ns[i] <= ns[j]
    {
      assert ids[i] in ids;
      NumberOrder(ns[i], ns[j], ids[i], latest);
    }
    assert MaxOf(ns) == ns[j];
    UidRoundTrip(ns[j]);
  }

  lemma NumberOrder(n: int, m: int, a: string, b: string)
    requires 0 <= n <= 999 && 0 <= m <= 999 && a == Uid(n) && b == Uid(m)
    requires a == b || StrLess(a, b)
    ensures n <= m
  {
    if a == b {
      UidInjective(n, m);
    } else {
      UidOrder(n, m);
    }
  }

  /**
   * Once a number reaches four digits the text order no longer follows the
   * numbers: with "UID999" and "UID1000" in use, "UID999" sorts last and
   * the next id as written is "UID1000" again.
   */
  lemma RepeatedIdAfterThousand()
    ensures var ids := ["UID999", "UID1000"];
      var r := NextUserId(LatestUserId(ids));
      r.Ok? && r.value in ids
  {
    LatestOfTwo();
    ConcreteUids();
    NextAfterUid(999);
  }

  lemma LatestOfTwo()
    ensures LatestUserId(["UID999", "UID1000"]) == Some("UID999")
  {
    var ids := ["UID999", "UID1000"];
    assert StrLess("UID1000", "UID999") by {
      StrLessCommonPrefix("UID", "1000", "999");
    }
    assert ids[1..] == ["UID1000"];
    assert LatestUserId(ids[1..]) == Some("UID1000");
  }

  lemma ConcreteUids()
    ensures Uid(999) == "UID999" && Uid(1000) == "UID1000"
  {
    assert DigitChar(9) == '9' && DigitChar(1) == '1' && DigitChar(0) == '0';
    assert Show(1) == "1";
    assert Show(9) == "9";
    assert Show(10) == Show(1) + "0" == "10";
    assert Show(99) == Show(9) + "9" == "99";
    assert Show(100) == Show(10) + "0" == "100";
    assert Show(999) == Show(99) + "9" == "999";
    assert Show(1000) == Show(100) + "0" == "1000";
  }

  datatype SignupOutcome = AlreadySignedUp | Created(userid: string) | Failed(error: SignupError)

  /**
   * Signing up with `email`, as the handler does it: an email already
   * registered sends the user to sign in; otherwise the account gets the id
   * after the latest one in text order, and storing it fails when that id
   * is already taken.
   */
  function SignUp(ids: seq<string>, emails: seq<string>, email: string): (o: SignupOutcome)
    ensures o == AlreadySignedUp <==> email in emails
    ensures o.Created? ==> o.userid !in ids && NextUserId(LatestUserId(ids)) == Ok(o.userid)
    ensures o.Failed? && o.error.DuplicateId? ==>
              o.error.userid in ids && NextUserId(LatestUserId(ids)) == Ok(o.error.userid)
    ensures o.Failed? && o.error.NotANumber? ==> NextUserId(LatestUserId(ids)) == Err(o.error)
    ensures ids == [] && email !in emails ==> o == Created(Uid(1))
  {
    if email in emails then AlreadySignedUp
    else
      match NextUserId(LatestUserId(ids))
      case Err(e) => Failed(e)
      case Ok(uid) => if uid in ids then Failed(DuplicateId(uid)) else Created(uid)
  }

  /**
   * With "UID999" and "UID1000" in use, a new email does not get an
   * account as written: the id handed out is "UID1000" again.
   */
  lemma SignUpFailsAfterThousand(emails: seq<string>, email: string)
    requires email !in emails
    ensures SignUp(["UID999", "UID1000"], emails, email) == Failed(DuplicateId("UID1000"))
  {
    RepeatedIdAfterThousand();
    LatestOfTwo();
    ConcreteUids();
    NextAfterUid(999);
  }

  /**
   * Signing up with the number-based next id: the same as `SignUp`, except
   * that the id is one more than the greatest number among all ids.
   */
  function SignUpByNumber(ids: seq<string>, emails: seq<string>, email: string): (o: SignupOutcome)
    ensures o == AlreadySignedUp <==> email in emails
    ensures o.Created? ==> NextFreeUserId(ids) == Ok(o.userid)
    ensures o.Failed? ==> NextFreeUserId(ids) == Err(o.error)
    ensures ids == [] && email !in emails ==> o == Created(Uid(1))
  {
    if email in emails then AlreadySignedUp
    else
      match NextFreeUserId(ids)
      case Ok(uid) => Created(uid)
      case Err(e) => Failed(e)
  }

  /** A new account by number never takes an id already in use, and never fails on a taken id. */
  lemma SignUpByNumberGivesFreshId(ids: seq<string>, emails: seq<string>, email: string)
    ensures var o := SignUpByNumber(ids, emails, email);
      (o.Created? ==> o.userid !in ids) && (o.Failed? ==> o.error.NotANumber?)
  {
    NextFreeUserIdIsFresh(ids);
  }

  /** With well-formed ids, every new email gets an account by number. */
  lemma SignUpByNumberCreatesForNewEmail(ns: seq<int>, emails: seq<string>, email: string)
    ensures SignUpByNumber(UidsOf(ns), emails, email).Created? <==> email !in emails
  {
    NumberedIdsHaveNext(ns);
  }

  /** While every number is at most 999, both sign-ups give the same outcome. */
  lemma SignUpsAgreeBelowThousand(ns: seq<int>, emails: seq<string>, email: string)
    requires forall i :: 0 <= i < |ns| ==> 0 <= ns[i] <= 999
    ensures SignUp(UidsOf(ns), emails, email) == SignUpByNumber(UidsOf(ns), emails, email)
  {
    NextUserIdBelowThousand(ns);
    NextFreeUserIdIsFresh(UidsOf(ns));
  }
}
