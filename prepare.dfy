/** Document preparation (includes/sync/class-prepare.php): the text
    sanitiser, the author sub-document, the date-partition fields, the meta-key
    selection and the typed projection of meta values. The WordPress and PHP
    library calls the class makes are parameters. */
module Prepare {
  import opened Php
  import opened Calendar

  /** The library calls the preparation depends on. */
  datatype Runtime = Runtime(
    stripTags: string -> string,           // strip_tags
    strtotime: string -> Option<int>,      // strtotime; None stands for false
    utcOffset: int -> int,                 // seconds the default time zone adds to a timestamp, for date()
    dateI18n: (string, int) -> string,     // date_i18n(format, timestamp)
    serialize: Value -> string,            // serialize
    floatval: Value -> Option<real>,       // floatval; None when the double is not finite
    floatToInt: real -> int,               // intval of a float
    floatStringToInt: string -> int        // (int) of a string whose leading number is written as a float
  )

  // ---------------------------------------------------------------------------
  // prepare(): the early bail

  /** $obj->name: a missing property, or a property of a non-object, reads as null. */
  function PropertyOf(obj: Value, name: string): Value
  {
    if obj.Obj? then
      match Lookup(obj.props, StrKey(name))
      case Some(v) => v
      case None => Null
    else Null
  }

  /** prepare() returns [] at once when the post (get_post's result) has an empty ID. */
  predicate PrepareBails(post: Value)
  {
    IsEmpty(PropertyOf(post, "ID"))
  }

  /** A missing post and a post without an ID bail; a post with an integer ID
      bails exactly when the ID is 0. */
  lemma PrepareBailCases(cls: string, props: seq<(Key, Value)>, n: int)
    ensures PrepareBails(Null)
    ensures !HasKey(props, StrKey("ID")) ==> PrepareBails(Obj(cls, props))
    ensures Lookup(props, StrKey("ID")) == Some(Int(n)) ==> (PrepareBails(Obj(cls, props)) <==> n == 0)
  {
  }

  // ---------------------------------------------------------------------------
  // prepare_text_content

  predicate IsBreak(c: char) { c == '\n' || c == '\r' }

  predicate NoBreaks(s: string) { forall i | 0 <= i < |s| :: !IsBreak(s[i]) }

  /** What follows the maximal run of line breaks at the front of s. */
  function SkipBreaks(s: string): (r: string)
    ensures |r| <= |s| && r == s[|s| - |r|..]
    ensures r == [] || !IsBreak(r[0])
    ensures forall i | 0 <= i < |s| - |r| :: IsBreak(s[i])
  {
    if s != [] && IsBreak(s[0]) then
      var r := SkipBreaks(s[1..]);
      assert forall i | 0 < i < |s| - |r| :: IsBreak(s[1..][i - 1]) && s[i] == s[1..][i - 1];
      r
    else s
  }

  /** The rewrite of line 122: every maximal run of line breaks becomes one
      space. */
  function CollapseBreaks(s: string): (r: string)
    ensures NoBreaks(r)
    decreases |s|
  {
    if s == [] then []
    else if IsBreak(s[0]) then " " + CollapseBreaks(SkipBreaks(s))
    else [s[0]] + CollapseBreaks(s[1..])
  }

  /** prepare_text_content: a non-string is returned as it is; a string loses its
      tags and then its line breaks. */
  function PrepareTextContent(content: Value, rt: Runtime): (r: Value)
    ensures !content.Str? ==> r == content
    ensures content.Str? ==> r.Str? && NoBreaks(r.s)
  {
    if !content.Str? then content
    else Str(CollapseBreaks(rt.stripTags(content.s)))
  }

  /** Text without line breaks is left as it is. */
  lemma {:induction false} CollapseIdentity(s: string)
    requires NoBreaks(s)
    ensures CollapseBreaks(s) == s
  {
    if s != [] {
      CollapseIdentity(s[1..]);
      assert [s[0]] + s[1..] == s;
    }
  }

  /** A run of line breaks alone becomes exactly one space. */
  lemma CollapseRun(s: string)
    requires s != [] && forall i | 0 <= i < |s| :: IsBreak(s[i])
    ensures CollapseBreaks(s) == " "
  {
    assert SkipBreaks(s) == [];
    assert " " + [] == " ";
  }

  lemma {:induction false} SkipBreaksAppend(a: string, b: string)
    ensures SkipBreaks(a) != [] ==> SkipBreaks(a + b) == SkipBreaks(a) + b
    ensures SkipBreaks(a) == [] && (b == [] || !IsBreak(b[0])) ==> SkipBreaks(a + b) == b
  {
    if a != [] && IsBreak(a[0]) {
      assert (a + b)[1..] == a[1..] + b;
      SkipBreaksAppend(a[1..], b);
    } else {
      assert a == [] ==> a + b == b;
    }
  }

  /** Text split where no run of line breaks is cut in two collapses piece by
      piece, so every other character keeps its place and order. */
  lemma {:induction false} CollapseAppend(a: string, b: string)
    requires a == [] || b == [] || !IsBreak(a[|a| - 1]) || !IsBreak(b[0])
    ensures CollapseBreaks(a + b) == CollapseBreaks(a) + CollapseBreaks(b)
    decreases |a|
  {
    if a == [] {
      assert a + b == b;
    } else if !IsBreak(a[0]) {
      assert (a + b)[1..] == a[1..] + b;
      CollapseAppend(a[1..], b);
      assert (a + b)[0] == a[0];
    } else {
      var r := SkipBreaks(a);
      SkipBreaksAppend(a, b);
      if r != [] {
        CollapseAppend(r, b);
        CollapseAfterRun(a, b);
      } else {
        assert CollapseBreaks(a) == " " + [];
        assert CollapseBreaks(a + b) == " " + CollapseBreaks(b);
      }
    }
  }

  lemma CollapseAfterRun(a: string, b: string)
    requires a != [] && IsBreak(a[0]) && SkipBreaks(a) != []
    requires CollapseBreaks(SkipBreaks(a) + b) == CollapseBreaks(SkipBreaks(a)) + CollapseBreaks(b)
    ensures CollapseBreaks(a + b) == CollapseBreaks(a) + CollapseBreaks(b)
  {
    var r := SkipBreaks(a);
    SkipBreaksAppend(a, b);
    assert (a + b)[0] == a[0];
    CollapseOfBreak(a + b);
    CollapseOfBreak(a);
    SpaceAssoc(CollapseBreaks(r), CollapseBreaks(b));
  }

  lemma CollapseOfBreak(s: string)
    requires s != [] && IsBreak(s[0])
    ensures CollapseBreaks(s) == " " + CollapseBreaks(SkipBreaks(s))
  {
  }

  lemma SpaceAssoc(x: string, y: string)
    ensures " " + (x + y) == (" " + x) + y
  {
  }

  // ---------------------------------------------------------------------------
  // get_author_data

  /** The author sub-document; `id` is the user's ID, or '' when there is no user. */
  datatype AuthorData = AuthorData(raw: Value, login: Value, displayName: Value, id: Value)
  {
    /** The array get_author_data returns. */
    function ToArray(): (a: seq<(Key, Value)>)
      ensures |a| == 4
      ensures a[0].0 == StrKey("raw") && a[1].0 == StrKey("login")
      ensures a[2].0 == StrKey("display_name") && a[3].0 == StrKey("id")
    {
      [(StrKey("raw"), raw), (StrKey("login"), login), (StrKey("display_name"), displayName), (StrKey("id"), id)]
    }
  }

  /** The class the unqualified name WP_User resolves to inside the namespace
      ElasticSync\Sync, where the instanceof test is written. */
  const ResolvedUserClass: string := "ElasticSync\\Sync\\WP_User"

  /** The class get_userdata returns an instance of. */
  const WordPressUserClass: string := "WP_User"

  /** The author data for get_userdata's result, with the found branch taken for
      an instance of `userClass`. */
  function AuthorDataFor(author: Value, userClass: string): (r: AuthorData)
    ensures !(author.Obj? && author.cls == userClass) ==> r == AuthorData(Str(""), Str(""), Str(""), Str(""))
    ensures author.Obj? && author.cls == userClass ==>
      r.raw == r.login == PropertyOf(author, "user_login")
      && r.displayName == PropertyOf(author, "display_name") && r.id == PropertyOf(author, "ID")
  {
    if !(author.Obj? && author.cls == userClass) then AuthorData(Str(""), Str(""), Str(""), Str(""))
    else
      var login := PropertyOf(author, "user_login");
      AuthorData(login, login, PropertyOf(author, "display_name"), PropertyOf(author, "ID"))
  }

  /** get_author_data as written: the test names ElasticSync\Sync\WP_User. */
  function GetAuthorData(author: Value): AuthorData
  {
    AuthorDataFor(author, ResolvedUserClass)
  }

  /** get_author_data as intended: the test names the global \WP_User. */
  function GetAuthorDataIntended(author: Value): AuthorData
  {
    AuthorDataFor(author, WordPressUserClass)
  }

  /** As written, a user that get_userdata finds still gives the blank sub-document. */
  lemma AuthorNeverFound(props: seq<(Key, Value)>)
    ensures GetAuthorData(Obj(WordPressUserClass, props)) == AuthorData(Str(""), Str(""), Str(""), Str(""))
  {
    assert WordPressUserClass != ResolvedUserClass by {
      assert |WordPressUserClass| != |ResolvedUserClass|;
    }
  }

  /** As intended, a found user gives its login twice, its display name and its ID. */
  lemma AuthorFoundIntended(props: seq<(Key, Value)>, login: string)
    requires Lookup(props, StrKey("user_login")) == Some(Str(login))
    ensures GetAuthorDataIntended(Obj(WordPressUserClass, props)).raw == Str(login)
    ensures GetAuthorDataIntended(Obj(WordPressUserClass, props)).login == Str(login)
  {
  }

  // ---------------------------------------------------------------------------
  // prepare_date_terms

  /** The date-partition fields of a post. The `m` field is the year and the
      month printed side by side and read back as one integer. */
  datatype DateFields = DateFields(year: int, month: int, week: int, dayofyear: int, day: int,
                                   dayofweek: int, dayofweekIso: int, hour: int, minute: int,
                                   second: int, m: int)

  /** (int) date(f, ts) for each field of the broken-down local time. */
  function FieldsOf(t: DateTime, floatCast: string -> int): DateFields
    requires WellFormed(t)
  {
    DateFields(
      IntCast(YearString(t.year), floatCast),
      IntCast(Pad2(t.month), floatCast),
      IntCast(Pad2(IsoWeek(t)), floatCast),
      IntCast(Unpadded(t.dayOfYear), floatCast),
      IntCast(Pad2(t.day), floatCast),
      IntCast(Unpadded(t.weekday), floatCast),
      IntCast(Unpadded(IsoWeekday(t)), floatCast),
      IntCast(Pad2(t.hour), floatCast),
      IntCast(Pad2(t.minute), floatCast),
      IntCast(Pad2(t.second), floatCast),
      IntCast(YearString(t.year) + Pad2(t.month), floatCast))
  }

  /** The local time date() renders for a timestamp. */
  function LocalTime(ts: int, rt: Runtime): (t: DateTime)
    ensures WellFormed(t) && WeekdayMatches(t) && Timestamp(t) == ts + rt.utcOffset(ts)
  {
    Breakdown(ts + rt.utcOffset(ts))
  }

  /** strtotime's result read as a PHP value: false or an integer. */
  function TimestampValue(ts: Option<int>): Value
  {
    match ts
    case None => Bool(false)
    case Some(t) => Int(t)
  }

  /** prepare_date_terms; None stands for the empty array. */
  function DateTerms(date: string, rt: Runtime): Option<DateFields>
  {
    var ts := rt.strtotime(date);
    if IsEmpty(TimestampValue(ts)) then None
    else Some(FieldsOf(LocalTime(ts.value, rt), rt.floatStringToInt))
  }

  /** No fields exactly when strtotime fails or yields 0, so the Unix epoch itself
      gives none. */
  lemma DateTermsEmpty(date: string, rt: Runtime)
    ensures DateTerms(date, rt).None? <==> rt.strtotime(date) == None || rt.strtotime(date) == Some(0)
  {
  }

  /** The year field is the calendar year read back as a decimal, which is exact
      within the 64-bit range. */
  lemma YearFieldValue(t: DateTime, floatCast: string -> int)
    requires WellFormed(t)
    ensures FieldsOf(t, floatCast).year == DecimalCast(t.year)
  {
    YearStringCast(t.year, floatCast);
  }

  /** The month and the day of the month are the calendar's. */
  lemma DateFieldValues(t: DateTime, floatCast: string -> int)
    requires WellFormed(t)
    ensures var f := FieldsOf(t, floatCast);
            f.month == t.month && f.day == t.day
  {
    FieldCast(t.month, floatCast);
    FieldCast(t.day, floatCast);
  }

  /** The week field is the ISO-8601 week number, from 1 to 53: for a date
      whose weekday agrees with it, the week is numbered by the Thursdays of the
      year holding the week's Thursday, up to that one. */
  lemma WeekFieldValue(t: DateTime, floatCast: string -> int)
    requires WellFormed(t)
    ensures FieldsOf(t, floatCast).week == IsoWeek(t) && 1 <= FieldsOf(t, floatCast).week <= 53
    ensures WeekdayMatches(t) ==> FieldsOf(t, floatCast).week == 1 + ThursdayInItsYear(t) / 7
  {
    var w := IsoWeek(t);
    FieldCast(w, floatCast);
    if WeekdayMatches(t) {
      IsoWeekByThursday(t);
    }
  }

  /** The time fields are the local time of day. */
  lemma TimeFieldValues(t: DateTime, floatCast: string -> int)
    requires WellFormed(t)
    ensures var f := FieldsOf(t, floatCast);
            f.hour == t.hour && f.minute == t.minute && f.second == t.second
  {
    FieldCast(t.hour, floatCast);
    FieldCast(t.minute, floatCast);
    FieldCast(t.second, floatCast);
  }

  /** dayofyear is 0-based and dayofweek counts from Sunday's 0. */
  lemma DayFieldValues(t: DateTime, floatCast: string -> int)
    requires WellFormed(t)
    ensures var f := FieldsOf(t, floatCast);
            f.dayofyear == t.dayOfYear && f.dayofweek == t.weekday
            && 0 <= f.dayofyear < 366 && 0 <= f.dayofweek < 7
  {
    UnpaddedCast(t.dayOfYear, floatCast);
    FieldCast(t.weekday, floatCast);
  }

  /** dayofweek_iso is dayofweek with Sunday's 0 turned into 7. */
  lemma IsoWeekdayField(t: DateTime, floatCast: string -> int)
    requires WellFormed(t)
    ensures var f := FieldsOf(t, floatCast);
            f.dayofweekIso == if f.dayofweek == 0 then 7 else f.dayofweek
  {
    FieldCast(t.weekday, floatCast);
    FieldCast(IsoWeekday(t), floatCast);
  }

  /** m is 100 * year + month for years from 0 on, and 100 * year - month before,
      within the 64-bit range. */
  lemma YearMonthField(t: DateTime, floatCast: string -> int)
    requires WellFormed(t)
    ensures var f := FieldsOf(t, floatCast);
            && (0 <= t.year && 100 * t.year + t.month <= INT64_MAX ==> f.m == 100 * f.year + f.month)
            && (INT64_MIN <= 100 * t.year - t.month && t.year < 0 ==> f.m == 100 * f.year - f.month)
  {
    YearMonthCast(t.year, t.month, floatCast);
    YearStringCast(t.year, floatCast);
    FieldCast(t.month, floatCast);
  }

  /** prepare_date_terms end to end: when strtotime gives a nonzero timestamp,
      every field is the calendar's own for the local time t of that timestamp;
      t is the valid date that maps back to the timestamp plus the zone offset. */
  lemma DateTermsFields(date: string, rt: Runtime)
    requires DateTerms(date, rt).Some?
    ensures var ts := rt.strtotime(date).value;
            var t := LocalTime(ts, rt);
            var f := DateTerms(date, rt).value;
            && WellFormed(t) && WeekdayMatches(t) && Timestamp(t) == ts + rt.utcOffset(ts)
            && f.year == DecimalCast(t.year) && f.month == t.month && f.day == t.day
            && f.week == 1 + ThursdayInItsYear(t) / 7
            && f.dayofyear == t.dayOfYear && f.dayofweek == t.weekday
            && f.dayofweekIso == (if f.dayofweek == 0 then 7 else f.dayofweek)
            && f.hour == t.hour && f.minute == t.minute && f.second == t.second
            && (0 <= t.year && 100 * t.year + t.month <= INT64_MAX ==> f.m == 100 * f.year + f.month)
            && (INT64_MIN <= 100 * t.year - t.month && t.year < 0 ==> f.m == 100 * f.year - f.month)
  {
    var ts := rt.strtotime(date).value;
    var t := LocalTime(ts, rt);
    var fc := rt.floatStringToInt;
    assert DateTerms(date, rt).value == FieldsOf(t, fc);
    FieldValues(t, fc);
  }

  lemma FieldValues(t: DateTime, fc: string -> int)
    requires WellFormed(t) && WeekdayMatches(t)
    ensures var f := FieldsOf(t, fc);
            && f.year == DecimalCast(t.year) && f.month == t.month && f.day == t.day
            && f.week == 1 + ThursdayInItsYear(t) / 7
            && f.dayofyear == t.dayOfYear && f.dayofweek == t.weekday
            && f.dayofweekIso == (if f.dayofweek == 0 then 7 else f.dayofweek)
            && f.hour == t.hour && f.minute == t.minute && f.second == t.second
            && (0 <= t.year && 100 * t.year + t.month <= INT64_MAX ==> f.m == 100 * f.year + f.month)
            && (INT64_MIN <= 100 * t.year - t.month && t.year < 0 ==> f.m == 100 * f.year - f.month)
  {
    CalendarFieldValues(t, fc);
    WeekFieldByThursday(t, fc);
    DayFieldValues(t, fc);
    IsoWeekdayField(t, fc);
    TimeFieldValues(t, fc);
  }

  lemma CalendarFieldValues(t: DateTime, fc: string -> int)
    requires WellFormed(t)
    ensures var f := FieldsOf(t, fc);
            && f.year == DecimalCast(t.year) && f.month == t.month && f.day == t.day
            && (0 <= t.year && 100 * t.year + t.month <= INT64_MAX ==> f.m == 100 * f.year + f.month)
            && (INT64_MIN <= 100 * t.year - t.month && t.year < 0 ==> f.m == 100 * f.year - f.month)
  {
    YearFieldValue(t, fc);
    DateFieldValues(t, fc);
    YearMonthField(t, fc);
  }

  lemma WeekFieldByThursday(t: DateTime, fc: string -> int)
    requires WellFormed(t) && WeekdayMatches(t)
    ensures var f := FieldsOf(t, fc);
            && f.week == 1 + ThursdayInItsYear(t) / 7
  {
    WeekFieldValue(t, fc);
  }

  // ---------------------------------------------------------------------------
  // prepare_meta

  /** The filters and the WordPress calls prepare_meta consults. */
  datatype MetaFilters = MetaFilters(
    allowedProtectedKeys: Value,                 // es_prepare_meta_allowed_protected_keys (default array())
    excludedPublicKeys: Value,                   // es_prepare_meta_excluded_public_keys (default array())
    allowIndex: (Value, Key, Value) -> Value,    // es_prepare_meta_allow_index (default: its first argument)
    isProtectedMeta: Key -> bool,                // is_protected_meta
    maybeUnserialize: Value -> Value)            // maybe_unserialize

  /** The decision before the es_prepare_meta_allow_index filter. */
  predicate DefaultDecision(k: Key, f: MetaFilters)
  {
    if f.isProtectedMeta(k) then InArrayStrict(k, ToArray(f.allowedProtectedKeys))
    else !InArrayStrict(k, ToArray(f.excludedPublicKeys))
  }

  /** The final decision, which may be any value the filter returns. */
  function Decision(k: Key, v: Value, f: MetaFilters): Value
  {
    f.allowIndex(Bool(DefaultDecision(k, f)), k, v)
  }

  /** An entry is skipped only when the decision is identical to false. */
  predicate Kept(k: Key, v: Value, f: MetaFilters) { Decision(k, v, f) != Bool(false) }

  /** The prepared meta of the first entries of `meta`, in order. */
  function SelectMeta(meta: seq<(Key, Value)>, f: MetaFilters): seq<(Key, Value)>
  {
    if meta == [] then []
    else
      var r := SelectMeta(meta[..|meta| - 1], f);
      var (k, v) := meta[|meta| - 1];
      if Kept(k, v, f) then Store(r, k, f.maybeUnserialize(v)) else r
  }

  /** prepare_meta, given what get_post_meta returned. */
  method PrepareMeta(stored: Value, f: MetaFilters) returns (prepared: seq<(Key, Value)>)
    ensures prepared == SelectMeta(ToArray(stored), f)
  {
    prepared := [];
    var meta := ToArray(stored);
    if IsEmpty(Arr(meta)) {
      return;
    }
    var i := 0;
    while i < |meta|
      invariant 0 <= i <= |meta|
      invariant prepared == SelectMeta(meta[..i], f)
    {
      var (k, v) := meta[i];
      assert meta[..i + 1][..i] == meta[..i];
      if Decision(k, v, f) == Bool(false) {
        i := i + 1;
        continue;
      }
      prepared := Store(prepared, k, f.maybeUnserialize(v));
      i := i + 1;
    }
    assert meta[..i] == meta;
  }

  /** Every prepared key is a key of the input. */
  lemma {:induction false} SelectMetaKeys(meta: seq<(Key, Value)>, f: MetaFilters, k: Key)
    ensures HasKey(SelectMeta(meta, f), k) ==> HasKey(meta, k)
  {
    if meta != [] {
      var p := meta[..|meta| - 1];
      var (k0, v0) := meta[|meta| - 1];
      SelectMetaKeys(p, f, k);
      var r := SelectMeta(p, f);
      if HasKey(SelectMeta(meta, f), k) {
        if k == k0 {
          assert meta[|meta| - 1].0 == k;
        } else {
          assert HasKey(r, k) by {
            if Kept(k0, v0, f) {
              assert Lookup(Store(r, k0, f.maybeUnserialize(v0)), k) == Lookup(r, k);
            }
          }
          var i :| 0 <= i < |p| && p[i].0 == k;
          assert meta[i] == p[i];
        }
      }
    }
  }

  /** A key of the input is kept, with the unserialized value, exactly when its
      decision is not identical to false; no other key appears. */
  lemma {:induction false} SelectMetaLookup(meta: seq<(Key, Value)>, f: MetaFilters, k: Key)
    requires DistinctKeys(meta)
    ensures Lookup(SelectMeta(meta, f), k) ==
            match Lookup(meta, k)
            case None => None
            case Some(v) => if Kept(k, v, f) then Some(f.maybeUnserialize(v)) else None
  {
    if meta != [] {
      var p := meta[..|meta| - 1];
      var e := meta[|meta| - 1];
      assert meta == p + [e];
      assert DistinctKeys(p) by {
        forall i, j | 0 <= i < j < |p| ensures p[i].0 != p[j].0 {
          assert p[i] == meta[i] && p[j] == meta[j];
        }
      }
      SelectMetaLookup(p, f, k);
      LookupSnoc(p, e, k);
      if e.0 == k {
        assert !HasKey(p, k) by {
          forall i | 0 <= i < |p| ensures p[i].0 != k {
            assert p[i] == meta[i];
          }
        }
      }
    }
  }

  /** With the default allow filter the decision is membership in the allow list
      for protected keys and absence from the deny list for the others. */
  lemma DefaultSelection(k: Key, v: Value, f: MetaFilters)
    requires forall d, k', v' :: f.allowIndex(d, k', v') == d
    ensures Kept(k, v, f) <==> DefaultDecision(k, f)
  {
  }

  /** Membership is strict: a numeric key does not match the same digits given as
      a string. */
  lemma StrictMembership()
    ensures !InArrayStrict(IntKey(5), [(IntKey(0), Str("5"))])
    ensures InArrayStrict(StrKey("_price"), [(IntKey(0), Str("_price"))])
  {
    assert [(IntKey(0), Str("_price"))][0].1 == KeyValue(StrKey("_price"));
  }

  // ---------------------------------------------------------------------------
  // prepare_meta_values

  /** The typed projections of one meta value; an absent projection is None. */
  datatype MetaTypes = MetaTypes(value: Value, raw: Value, boolean: bool,
                                 long: Option<Value>, double: Option<Value>,
                                 date: Option<string>, datetime: Option<string>, time: Option<string>)
  {
    /** The array prepare_meta_values returns. */
    function ToValue(): Value
    {
      Arr([(StrKey("value"), value), (StrKey("raw"), raw), (StrKey("boolean"), Bool(boolean))]
          + (if long.Some? then [(StrKey("long"), long.value)] else [])
          + (if double.Some? then [(StrKey("double"), double.value)] else [])
          + (if date.Some? then [(StrKey("date"), Str(date.value))] else [])
          + (if datetime.Some? then [(StrKey("datetime"), Str(datetime.value))] else [])
          + (if time.Some? then [(StrKey("time"), Str(time.value))] else []))
    }
  }

  /** Self::MAX_JAVA_INT (line 28). */
  const MAX_JAVA_INT: int := 9223372036854775807

  /** intval. */
  function IntVal(v: Value, rt: Runtime): int
  {
    match v
    case Null => 0
    case Bool(b) => if b then 1 else 0
    case Int(i) => i
    case Float(r) => rt.floatToInt(r)
    case Str(s) => IntCast(s, rt.floatStringToInt)
    case Arr(items) => if items == [] then 0 else 1
    case Obj(_, _) => 1
  }

  /** The `long` projection as written: `$max_java_int_value` is undefined, hence
      null, and null < $long compares as false < (bool) $long, so every nonzero
      long is replaced by null. */
  function LongAsWritten(v: Value, rt: Runtime): Value
  {
    var long := IntVal(v, rt);
    if long != 0 then Null else Int(long)
  }

  /** The `long` projection as intended: clamped to MAX_JAVA_INT. */
  function LongIntended(v: Value, rt: Runtime): (r: Value)
    ensures r.Int? && r.i <= MAX_JAVA_INT
    ensures IntVal(v, rt) <= MAX_JAVA_INT ==> r == Int(IntVal(v, rt))
  {
    var long := IntVal(v, rt);
    if MAX_JAVA_INT < long then Int(MAX_JAVA_INT) else Int(long)
  }

  /** The value after serialize() of arrays and objects. */
  function Serialized(value: Value, rt: Runtime): Value
  {
    if value.Arr? || value.Obj? then Str(rt.serialize(value)) else value
  }

  /** prepare_meta_values, with the `long` projection chosen by `intended`. */
  function MetaValuesWith(value: Value, rt: Runtime, intended: bool): (r: MetaTypes)
    ensures r.value == r.raw == Serialized(value, rt)
    ensures r.boolean == ValidateBoolean(Serialized(value, rt))
    ensures r.long.Some? <==> IsNumeric(Serialized(value, rt))
    ensures r.double.Some? <==> IsNumeric(Serialized(value, rt))
    ensures r.date.Some? <==> Serialized(value, rt).Str?
    ensures r.datetime.Some? <==> r.date.Some?
    ensures r.time.Some? <==> r.date.Some?
  {
    var v := Serialized(value, rt);
    var numeric := IsNumeric(v);
    var long := if !numeric then None else if intended then Some(LongIntended(v, rt)) else Some(LongAsWritten(v, rt));
    var double := if !numeric then None else
      match rt.floatval(v)
      case Some(d) => Some(Float(d))
      case None => Some(Int(0));
    if !v.Str? then MetaTypes(v, v, ValidateBoolean(v), long, double, None, None, None)
    else
      var ts := rt.strtotime(v.s);
      var (date, datetime, time) :=
        if ts.None? then ("1971-01-01", "1971-01-01 00:00:01", "00:00:01")
        else (rt.dateI18n("Y-m-d", ts.value), rt.dateI18n("Y-m-d H:i:s", ts.value), rt.dateI18n("H:i:s", ts.value));
      MetaTypes(v, v, ValidateBoolean(v), long, double, Some(date), Some(datetime), Some(time))
  }

  /** prepare_meta_values as written. */
  function PrepareMetaValues(value: Value, rt: Runtime): (r: MetaTypes)
  {
    MetaValuesWith(value, rt, false)
  }

  /** prepare_meta_values as intended: `long` clamped to MAX_JAVA_INT. */
  function PrepareMetaValuesIntended(value: Value, rt: Runtime): (r: MetaTypes)
  {
    MetaValuesWith(value, rt, true)
  }

  /** The `long` projection of either version reached through prepare_meta_values. */
  lemma LongNulled(value: Value, rt: Runtime)
    requires IsNumeric(Serialized(value, rt))
    ensures PrepareMetaValues(value, rt).long == Some(if IntVal(Serialized(value, rt), rt) != 0 then Null else Int(0))
  {
  }

  /** As written, the stored decimal "42" gets a null `long` instead of its value. */
  lemma LongNulledExample(rt: Runtime)
    ensures PrepareMetaValues(Str("42"), rt).long == Some(Null)
  {
    assert DigitsValue("42") == 42 by {
      assert "42"[..1] == "4";
    }
    LongOfDigitsAsWritten("42", rt);
  }

  /** As written, a stored decimal keeps a `long` only when intval gives 0, that is
      when its value is 0 or overflows a double; every other one is nulled. */
  lemma LongOfDigitsAsWritten(d: string, rt: Runtime)
    requires |d| > 0 && AllDigits(d)
    ensures PrepareMetaValues(Str(d), rt).long
            == Some(if DigitsValue(d) == 0 || DigitsValue(d) >= DOUBLE_OVERFLOW then Int(0) else Null)
  {
    DigitsAreNumeric(d);
    DigitsIntVal(d, rt);
    LongNulled(Str(d), rt);
  }

  /** As intended, a stored decimal's `long` is its value capped at MAX_JAVA_INT, or
      0 when the value overflows a double. The cap never changes a string's value:
      (int) already saturates there. */
  lemma LongOfDigitsIntended(d: string, rt: Runtime)
    requires |d| > 0 && AllDigits(d)
    ensures PrepareMetaValuesIntended(Str(d), rt).long
            == Some(Int(if DigitsValue(d) >= DOUBLE_OVERFLOW then 0
                        else if DigitsValue(d) > MAX_JAVA_INT then MAX_JAVA_INT else DigitsValue(d)))
    ensures PrepareMetaValuesIntended(Str(d), rt).long == Some(Int(IntVal(Str(d), rt)))
  {
    DigitsAreNumeric(d);
    DigitsIntVal(d, rt);
    LongIntendedValue(Str(d), rt);
  }

  /** intval of a decimal string is its value, saturated at the 64-bit maximum,
      or 0 when it overflows a double. */
  lemma DigitsIntVal(d: string, rt: Runtime)
    requires |d| > 0 && AllDigits(d)
    ensures IntVal(Str(d), rt) == DecimalCast(DigitsValue(d))
  {
    var fc := rt.floatStringToInt;
    assert IntVal(Str(d), rt) == IntCast(d, fc);
    assert d + [] == d;
    IntCastDigits(d, [], fc);
  }

  /** The intended `long` reached through prepare_meta_values. */
  lemma LongIntendedValue(value: Value, rt: Runtime)
    requires IsNumeric(Serialized(value, rt))
    ensures var l := IntVal(Serialized(value, rt), rt);
            PrepareMetaValuesIntended(value, rt).long == Some(Int(if l > MAX_JAVA_INT then MAX_JAVA_INT else l))
  {
  }

  /** When strtotime fails, the date projections fall back to fixed values. */
  lemma DateFallback(s: string, rt: Runtime)
    requires rt.strtotime(s) == None
    ensures var r := PrepareMetaValues(Str(s), rt);
            r.date == Some("1971-01-01") && r.datetime == Some("1971-01-01 00:00:01") && r.time == Some("00:00:01")
  {
  }

  /** `boolean` holds for exactly the true spellings of FILTER_VALIDATE_BOOLEAN. */
  lemma BooleanProjection(s: string, rt: Runtime)
    ensures PrepareMetaValues(Str(s), rt).boolean <==> Lower(TrimFilterSpaces(s)) in {"1", "true", "on", "yes"}
  {
  }

  // ---------------------------------------------------------------------------
  // prepare_meta_types

  /** The value cast to an array with prepare_meta_values mapped over it: keys
      kept, values projected. */
  function MapMetaValues(value: Value, rt: Runtime): (r: Value)
    ensures r.Arr? && |r.items| == |ToArray(value)|
  {
    Arr(MapItems(ToArray(value), rt))
  }

  /** The entries of an array, each value replaced by its prepare_meta_values
      projection. */
  function MapItems(items: seq<(Key, Value)>, rt: Runtime): (r: seq<(Key, Value)>)
    ensures |r| == |items|
  {
    if items == [] then []
    else [(items[0].0, PrepareMetaValues(items[0].1, rt).ToValue())] + MapItems(items[1..], rt)
  }

  /** array_map keeps every key in its place and projects the value beside it. */
  lemma {:induction false} MapItemsAt(items: seq<(Key, Value)>, rt: Runtime, i: int)
    requires 0 <= i < |items|
    ensures MapItems(items, rt)[i] == (items[i].0, PrepareMetaValues(items[i].1, rt).ToValue())
  {
    if i > 0 {
      MapItemsAt(items[1..], rt, i - 1);
    }
  }

  /** prepare_meta_types as written: each pass stores under the literal key 'key',
      so only the last entry's projection survives, and nothing else changes. */
  method PrepareMetaTypes(meta: seq<(Key, Value)>, rt: Runtime) returns (r: seq<(Key, Value)>)
    ensures meta == [] ==> r == meta
    ensures meta != [] ==> r == Store(meta, StrKey("key"), MapMetaValues(meta[|meta| - 1].1, rt))
  {
    r := meta;
    var key := StrKey("key");
    var i := 0;
    ghost var last := Null;
    while i < |meta|
      invariant 0 <= i <= |meta|
      invariant i == 0 ==> r == meta
      invariant i > 0 ==> r == Store(meta, key, last) && last == MapMetaValues(meta[i - 1].1, rt)
    {
      var v := MapMetaValues(meta[i].1, rt);
      StoreAgain(meta, r, key, last, v);
      r := Store(r, key, v);
      last := v;
      i := i + 1;
    }
  }

  /** Storing into the array as it was, or as one earlier store left it, gives
      the same result. */
  lemma StoreAgain(a: seq<(Key, Value)>, r: seq<(Key, Value)>, k: Key, x: Value, v: Value)
    requires r == a || r == Store(a, k, x)
    ensures Store(r, k, v) == Store(a, k, v)
  {
    if r != a {
      StoreTwice(a, k, x, v);
    }
  }

  /** After prepare_meta_types as written, 'key' holds the last projection and
      every other key keeps its value. */
  lemma MetaTypesOnlyKey(meta: seq<(Key, Value)>, rt: Runtime, k: Key)
    requires meta != [] && k != StrKey("key")
    ensures var r := Store(meta, StrKey("key"), MapMetaValues(meta[|meta| - 1].1, rt));
            Lookup(r, k) == Lookup(meta, k)
            && Lookup(r, StrKey("key")) == Some(MapMetaValues(meta[|meta| - 1].1, rt))
  {
  }

  /** prepare_meta_types as intended: each entry replaced by its own projection. */
  method PrepareMetaTypesIntended(meta: seq<(Key, Value)>, rt: Runtime) returns (r: seq<(Key, Value)>)
    ensures |r| == |meta|
    ensures forall j | 0 <= j < |meta| :: r[j] == (meta[j].0, MapMetaValues(meta[j].1, rt))
  {
    r := meta;
    var i := 0;
    while i < |meta|
      invariant 0 <= i <= |meta| && |r| == |meta|
      invariant forall j | 0 <= j < i :: r[j] == (meta[j].0, MapMetaValues(meta[j].1, rt))
      invariant forall j | i <= j < |meta| :: r[j] == meta[j]
    {
      var (key, value) := meta[i];
      r := r[i := (key, MapMetaValues(value, rt))];
      i := i + 1;
    }
  }
}
