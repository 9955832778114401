/**
 The song-request route (`app/api/song-request/route.ts`) with the database
 replaced by a value: a map from calendar day to that day's bucket of
 requests, and the blacklist. POST validates and appends, GET lists today's
 bucket in display form, DELETE pulls matching entries.
 */
module SongRequests {
  import opened Seqs
  import opened Text
  import opened Common

  /** The POST/DELETE body; `studentNumber` is the raw five-digit number. */
  datatype SongRequestForm =
    SongRequestForm(name: string, studentNumber: string, songTitle: string, singer: string, imgSrc: string)

  /** One entry of a day's bucket, as it is stored. */
  datatype StoredRequest =
    StoredRequest(name: string, studentNumber: string, songTitle: string, singer: string, imgSrc: string, timestamp: int)

  /** The song-request collection: one bucket per day, plus the blacklist document. */
  datatype SongStore = SongStore(buckets: map<CalendarDate, seq<StoredRequest>>, blacklist: seq<BlacklistEntry>)

  const DailyLimit: nat := 10

  const ClosedMessage: string := "오늘 신청이 마감되었습니다. (10개)"
  const DuplicateSongMessage: string := "동일한 신청곡이 존재합니다."
  const AlreadyRequestedMessage: string := "이미 신청하셨습니다."
  const DuplicateSingerMessage: string := "동일한 가수의 신청곡이 존재합니다."

  // ---------------------------------------------------------------------
  // Student numbers

  /** `String(year).slice(2, 4)`. */
  function YearDigits(year: nat): (r: string)
    ensures |r| == if |DecimalString(year)| <= 2 then 0 else Min(|DecimalString(year)|, 4) - 2
    ensures |r| <= 2
    ensures |r| > 0 ==> 2 + |r| <= |DecimalString(year)|
    ensures forall k :: 0 <= k < |r| ==> '0' <= r[k] <= '9' && r[k] == DecimalString(year)[2 + k]
    ensures year >= 1000 ==> |r| == 2
  {
    if year >= 1000 then
      DecimalLength(year);
      JsSlice(DecimalString(year), 2, 4)
    else
      JsSlice(DecimalString(year), 2, 4)
  }

  /** The constructor's rewriting: two year digits, the letter `s`, then the raw number. */
  function PrefixStudentNumber(year: nat, raw: string): (r: string)
    ensures |r| == |YearDigits(year)| + 1 + |raw|
    ensures r[..|YearDigits(year)|] == YearDigits(year)
    ensures r[|YearDigits(year)|] == 's'
    ensures r[|r| - |raw|..] == raw
  {
    YearDigits(year) + "s" + raw
  }

  /** GET's `slice(3, 8)` of a stored number. */
  function DisplayStudentNumber(stored: string): (r: string)
    ensures |r| == if |stored| <= 3 then 0 else Min(|stored|, 8) - 3
    ensures forall k :: 0 <= k < |r| ==> r[k] == stored[3 + k]
  {
    JsSlice(stored, 3, 8)
  }

  /** From year 1000 on, the prefix is exactly three characters, the third being `s`. */
  lemma PrefixShape(year: nat, raw: string)
    requires year >= 1000
    ensures var p := PrefixStudentNumber(year, raw);
      |p| == |raw| + 3 && p[2] == 's' && p[3..] == raw
  {
    DecimalLength(year);
    var p := PrefixStudentNumber(year, raw);
    assert |YearDigits(year)| == 2;
    assert p == YearDigits(year) + ("s" + raw);
  }

  /** Display recovers the raw number (its first five characters) from the stored form. */
  lemma DisplayUndoesPrefix(year: nat, raw: string)
    requires year >= 1000
    ensures DisplayStudentNumber(PrefixStudentNumber(year, raw)) == raw[..Min(5, |raw|)]
    ensures |raw| == 5 ==> DisplayStudentNumber(PrefixStudentNumber(year, raw)) == raw
  {
    PrefixShape(year, raw);
    var p := PrefixStudentNumber(year, raw);
    var d := DisplayStudentNumber(p);
    assert |d| == Min(5, |raw|);
    forall k | 0 <= k < |d| ensures d[k] == raw[k] {
      assert d[k] == p[3 + k] == p[3..][k];
    }
  }

  /** For a fixed year, two stored numbers are equal exactly when the raw numbers are. */
  lemma PrefixInjective(year: nat, a: string, b: string)
    ensures PrefixStudentNumber(year, a) == PrefixStudentNumber(year, b) <==> a == b
  {
    var p := YearDigits(year) + "s";
    assert PrefixStudentNumber(year, a) == p + a;
    assert PrefixStudentNumber(year, b) == p + b;
    if p + a == p + b {
      assert a == (p + a)[|p|..];
      assert b == (p + b)[|p|..];
    }
  }

  /** The form as the constructor leaves it: the student number carries the year prefix. */
  function Prefixed(clock: Clock, form: SongRequestForm): SongRequestForm
  {
    form.(studentNumber := PrefixStudentNumber(clock.today.year, form.studentNumber))
  }

  // ---------------------------------------------------------------------
  // checkValidity

  /** Today's bucket; a day without a document reads as empty. */
  function Bucket(store: SongStore, day: CalendarDate): seq<StoredRequest>
  {
    if day in store.buckets then store.buckets[day] else []
  }

  predicate TitleTaken(bucket: seq<StoredRequest>, title: string)
  {
    exists i :: 0 <= i < |bucket| && Normalize(bucket[i].songTitle) == Normalize(title)
  }

  predicate NumberTaken(bucket: seq<StoredRequest>, studentNumber: string)
  {
    exists i :: 0 <= i < |bucket| && bucket[i].studentNumber == studentNumber
  }

  predicate SingerTaken(bucket: seq<StoredRequest>, singer: string)
  {
    exists i :: 0 <= i < |bucket| && bucket[i].singer == singer
  }

  /**
   The five checks in their fixed order; the first that fires gives the one
   rejection message, and the request is valid exactly when the message is empty.
   `candidate.studentNumber` is already prefixed.
   */
  function CheckValidity(bucket: seq<StoredRequest>, blacklist: seq<BlacklistEntry>, candidate: SongRequestForm): (v: Validity)
    ensures v.isValid <==> v.message == ""
    ensures v.isValid <==>
      && |bucket| < DailyLimit
      && !TitleTaken(bucket, candidate.songTitle)
      && !NumberTaken(bucket, candidate.studentNumber)
      && !OnBlacklist(blacklist, candidate.studentNumber)
      && !SingerTaken(bucket, candidate.singer)
    ensures v.message == ClosedMessage <==> |bucket| >= DailyLimit
    ensures v.message == DuplicateSongMessage <==>
      |bucket| < DailyLimit && TitleTaken(bucket, candidate.songTitle)
    ensures v.message == AlreadyRequestedMessage <==>
      && |bucket| < DailyLimit
      && !TitleTaken(bucket, candidate.songTitle)
      && NumberTaken(bucket, candidate.studentNumber)
    ensures v.message == BlacklistMessage <==>
      && |bucket| < DailyLimit
      && !TitleTaken(bucket, candidate.songTitle)
      && !NumberTaken(bucket, candidate.studentNumber)
      && OnBlacklist(blacklist, candidate.studentNumber)
    ensures v.message == DuplicateSingerMessage <==>
      && |bucket| < DailyLimit
      && !TitleTaken(bucket, candidate.songTitle)
      && !NumberTaken(bucket, candidate.studentNumber)
      && !OnBlacklist(blacklist, candidate.studentNumber)
      && SingerTaken(bucket, candidate.singer)
  {
    var message :=
      if |bucket| >= DailyLimit then ClosedMessage
      else if TitleTaken(bucket, candidate.songTitle) then DuplicateSongMessage
      else if NumberTaken(bucket, candidate.studentNumber) then AlreadyRequestedMessage
      else if OnBlacklist(blacklist, candidate.studentNumber) then BlacklistMessage
      else if SingerTaken(bucket, candidate.singer) then DuplicateSingerMessage
      else "";
    Validity(message == "", message)
  }

  // ---------------------------------------------------------------------
  // POST, GET and DELETE

  /** The record `addRequestToDB` pushes, stamped with the server clock. */
  function Entry(clock: Clock, form: SongRequestForm): StoredRequest
  {
    var c := Prefixed(clock, form);
    StoredRequest(c.name, c.studentNumber, c.songTitle, c.singer, c.imgSrc, clock.millis)
  }

  /** POST: validate against today's bucket and the blacklist; append only if valid. */
  function AddRequest(store: SongStore, clock: Clock, form: SongRequestForm): (r: Reply<SongStore>)
    ensures r.response == CheckValidity(Bucket(store, clock.today), store.blacklist, Prefixed(clock, form))
    ensures r.state.blacklist == store.blacklist
    ensures !r.response.isValid ==> r.state == store
    ensures r.response.isValid ==>
      r.state.buckets == store.buckets[clock.today := Bucket(store, clock.today) + [Entry(clock, form)]]
  {
    var bucket := Bucket(store, clock.today);
    var validity := CheckValidity(bucket, store.blacklist, Prefixed(clock, form));
    if validity.isValid then
      Reply(store.(buckets := store.buckets[clock.today := bucket + [Entry(clock, form)]]), Validity(true, ""))
    else
      Reply(store, Validity(false, validity.message))
  }

  /** GET: today's bucket with every student number cut back to its display form. */
  function GetRequests(store: SongStore, clock: Clock): (r: seq<StoredRequest>)
    ensures |r| == |Bucket(store, clock.today)|
    ensures forall i :: 0 <= i < |r| ==>
      r[i] == Bucket(store, clock.today)[i].(studentNumber := DisplayStudentNumber(Bucket(store, clock.today)[i].studentNumber))
  {
    var bucket := Bucket(store, clock.today);
    seq(|bucket|, i requires 0 <= i < |bucket| => bucket[i].(studentNumber := DisplayStudentNumber(bucket[i].studentNumber)))
  }

  /** The `$pull` condition: an entry survives unless both its name and its stored number match. */
  function Survives(name: string, studentNumber: string): StoredRequest -> bool
  {
    (x: StoredRequest) => !(x.name == name && x.studentNumber == studentNumber)
  }

  /**
   DELETE: pull every entry of today's bucket whose name and prefixed number
   both match. There is no upsert, so a day without a document stays absent.
   */
  function DeleteRequest(store: SongStore, clock: Clock, name: string, studentNumber: string): (r: Reply<SongStore>)
    ensures r.response == Validity(true, "")
    ensures r.state.blacklist == store.blacklist
    ensures r.state.buckets.Keys == store.buckets.Keys
    ensures forall d :: d in store.buckets && d != clock.today ==> r.state.buckets[d] == store.buckets[d]
    ensures Bucket(r.state, clock.today)
      == Filter(Survives(name, PrefixStudentNumber(clock.today.year, studentNumber)), Bucket(store, clock.today))
    ensures var after := Bucket(r.state, clock.today);
      forall k :: 0 <= k < |after| ==>
        after[k] in Bucket(store, clock.today)
        && !(after[k].name == name
             && after[k].studentNumber == PrefixStudentNumber(clock.today.year, studentNumber))
  {
    var number := PrefixStudentNumber(clock.today.year, studentNumber);
    if clock.today in store.buckets then
      var bucket := store.buckets[clock.today];
      Reply(store.(buckets := store.buckets[clock.today := Filter(Survives(name, number), bucket)]), Validity(true, ""))
    else
      Reply(store, Validity(true, ""))
  }

  // ---------------------------------------------------------------------
  // Properties of single calls

  /** A full bucket rejects with the closing message whatever the request, and stores nothing. */
  lemma FullBucketCloses(store: SongStore, clock: Clock, form: SongRequestForm)
    requires |Bucket(store, clock.today)| >= DailyLimit
    ensures AddRequest(store, clock, form) == Reply(store, Validity(false, ClosedMessage))
  {
  }

  /** Deleting a pair that matches nothing is a no-op that still reports success. */
  lemma DeleteWithoutMatchIsNoOp(store: SongStore, clock: Clock, name: string, studentNumber: string)
    requires forall x :: x in Bucket(store, clock.today) ==>
      !(x.name == name && x.studentNumber == PrefixStudentNumber(clock.today.year, studentNumber))
    ensures DeleteRequest(store, clock, name, studentNumber) == Reply(store, Validity(true, ""))
  {
    if clock.today in store.buckets {
      var bucket := store.buckets[clock.today];
      FilterKeepsAll(Survives(name, PrefixStudentNumber(clock.today.year, studentNumber)), bucket);
      assert store.buckets[clock.today := bucket] == store.buckets;
    }
  }

  /** DELETE removes every copy of a matching entry and keeps every copy of any other. */
  lemma DeleteRemovesExactlyMatches(store: SongStore, clock: Clock, name: string, studentNumber: string, x: StoredRequest)
    ensures var after := Bucket(DeleteRequest(store, clock, name, studentNumber).state, clock.today);
      multiset(after)[x] ==
        if x.name == name && x.studentNumber == PrefixStudentNumber(clock.today.year, studentNumber) then 0
        else multiset(Bucket(store, clock.today))[x]
  {
    if clock.today in store.buckets {
      FilterCount(Survives(name, PrefixStudentNumber(clock.today.year, studentNumber)), store.buckets[clock.today], x);
    }
  }

  /**
   DELETE works entry by entry and keeps the survivors in their original
   order: on a bucket split in two, the result is what it leaves of the first
   part followed by what it leaves of the second.
   */
  lemma DeleteKeepsOrder(store: SongStore, clock: Clock, name: string, studentNumber: string,
                         front: seq<StoredRequest>, back: seq<StoredRequest>)
    requires clock.today in store.buckets
    requires Bucket(store, clock.today) == front + back
    ensures var after := Bucket(DeleteRequest(store, clock, name, studentNumber).state, clock.today);
      var front' := Bucket(DeleteRequest(store.(buckets := store.buckets[clock.today := front]), clock, name, studentNumber).state, clock.today);
      var back' := Bucket(DeleteRequest(store.(buckets := store.buckets[clock.today := back]), clock, name, studentNumber).state, clock.today);
      after == front' + back'
  {
    FilterAppend(Survives(name, PrefixStudentNumber(clock.today.year, studentNumber)), front, back);
  }

  /** Deleting what a successful POST just added gives back the bucket as it was. */
  lemma DeleteUndoesAdd(store: SongStore, clock: Clock, form: SongRequestForm)
    requires AddRequest(store, clock, form).response.isValid
    ensures var added := AddRequest(store, clock, form).state;
      Bucket(DeleteRequest(added, clock, form.name, form.studentNumber).state, clock.today) == Bucket(store, clock.today)
  {
    var bucket := Bucket(store, clock.today);
    var e := Entry(clock, form);
    var keep := Survives(form.name, e.studentNumber);
    assert !NumberTaken(bucket, e.studentNumber);
    FilterKeepsAll(keep, bucket);
    FilterAppend(keep, bucket, [e]);
    assert Filter(keep, [e]) == [] by {
      assert !keep(e);
      assert [e][1..] == [];
    }
    assert bucket + [] == bucket;
  }

  /**
   After a successful POST from a four-digit year with a five-character raw
   number, GET lists the earlier entries as before and, last, the new request
   with the raw number as it was typed.
   */
  lemma GetShowsNewRequest(store: SongStore, clock: Clock, form: SongRequestForm)
    requires AddRequest(store, clock, form).response.isValid
    requires clock.today.year >= 1000 && |form.studentNumber| == 5
    ensures var shown := GetRequests(AddRequest(store, clock, form).state, clock);
      && |shown| == |Bucket(store, clock.today)| + 1
      && shown[..|shown| - 1] == GetRequests(store, clock)
      && shown[|shown| - 1] ==
           StoredRequest(form.name, form.studentNumber, form.songTitle, form.singer, form.imgSrc, clock.millis)
  {
    DisplayUndoesPrefix(clock.today.year, form.studentNumber);
    var shown := GetRequests(AddRequest(store, clock, form).state, clock);
    assert shown[..|shown| - 1] == GetRequests(store, clock);
  }

  /** The duplicate-title check sees through case and punctuation: "hello!" collides with "Hello". */
  lemma DuplicateTitleExample(clock: Clock, earlier: StoredRequest, form: SongRequestForm)
    requires earlier.songTitle == "Hello" && earlier.singer == "Adele"
    requires form.songTitle == "hello!" && form.singer == "Drake"
    ensures CheckValidity([earlier], [], Prefixed(clock, form)) == Validity(false, DuplicateSongMessage)
  {
    HelloTitlesCollide();
    assert Normalize([earlier][0].songTitle) == Normalize(form.songTitle);
  }

  lemma HelloTitlesCollide()
    ensures Normalize("hello!") == Normalize("Hello")
  {
    HelloIgnoresBang();
    HelloIgnoresCase();
  }

  lemma HelloIgnoresBang()
    ensures Normalize("hello!") == Normalize("hello")
  {
    var a, b := "hello", "";
    assert a + ['!'] + b == "hello!";
    assert a + b == "hello";
    NormalizeIgnoresPunctuation(a, '!', b);
  }

  lemma HelloIgnoresCase()
    ensures Normalize("hello") == Normalize("Hello")
  {
    var lower, upper := "hello", "Hello";
    assert ToUpper(lower) == ToUpper(upper);
    NormalizeIgnoresCase(lower);
    NormalizeIgnoresCase(upper);
  }

  // ---------------------------------------------------------------------
  // The bucket invariant

  function TitleKey(x: StoredRequest): string
  {
    Normalize(x.songTitle)
  }

  function NumberKey(x: StoredRequest): string
  {
    x.studentNumber
  }

  function SingerKey(x: StoredRequest): string
  {
    x.singer
  }

  /**
   What the checks keep true of every bucket: at most ten entries; pairwise
   distinct normalised titles, student numbers and singers; no blacklisted number.
   */
  ghost predicate BucketOk(bucket: seq<StoredRequest>, blacklist: seq<BlacklistEntry>)
  {
    && |bucket| <= DailyLimit
    && DistinctBy(bucket, TitleKey)
    && DistinctBy(bucket, NumberKey)
    && DistinctBy(bucket, SingerKey)
    && forall i :: 0 <= i < |bucket| ==> !OnBlacklist(blacklist, bucket[i].studentNumber)
  }

  ghost predicate StoreOk(store: SongStore)
  {
    forall d :: d in store.buckets ==> BucketOk(store.buckets[d], store.blacklist)
  }

  /** Appending a request the checks accepted keeps a bucket within the invariant. */
  lemma AppendKeepsBucketOk(bucket: seq<StoredRequest>, blacklist: seq<BlacklistEntry>, clock: Clock, form: SongRequestForm)
    requires BucketOk(bucket, blacklist)
    requires CheckValidity(bucket, blacklist, Prefixed(clock, form)).isValid
    ensures BucketOk(bucket + [Entry(clock, form)], blacklist)
  {
    var e := Entry(clock, form);
    var b := bucket + [e];
    forall i, j | 0 <= i < j < |b|
      ensures TitleKey(b[i]) != TitleKey(b[j])
      ensures NumberKey(b[i]) != NumberKey(b[j])
      ensures SingerKey(b[i]) != SingerKey(b[j])
    {
      if j == |bucket| {
        assert b[i] == bucket[i] && b[j] == e;
      } else {
        assert b[i] == bucket[i] && b[j] == bucket[j];
      }
    }
  }

  /** Dropping entries keeps a bucket within the invariant. */
  lemma FilterKeepsBucketOk(keep: StoredRequest -> bool, bucket: seq<StoredRequest>, blacklist: seq<BlacklistEntry>)
    requires BucketOk(bucket, blacklist)
    ensures BucketOk(Filter(keep, bucket), blacklist)
  {
    FilterKeepsDistinct(keep, bucket, TitleKey);
    FilterKeepsDistinct(keep, bucket, NumberKey);
    FilterKeepsDistinct(keep, bucket, SingerKey);
    var r := Filter(keep, bucket);
    forall i | 0 <= i < |r| ensures !OnBlacklist(blacklist, r[i].studentNumber) {
      assert r[i] in bucket;
    }
  }

  lemma AddKeepsStoreOk(store: SongStore, clock: Clock, form: SongRequestForm)
    requires StoreOk(store)
    ensures StoreOk(AddRequest(store, clock, form).state)
  {
    if AddRequest(store, clock, form).response.isValid {
      AppendKeepsBucketOk(Bucket(store, clock.today), store.blacklist, clock, form);
    }
  }

  lemma DeleteKeepsStoreOk(store: SongStore, clock: Clock, name: string, studentNumber: string)
    requires StoreOk(store)
    ensures StoreOk(DeleteRequest(store, clock, name, studentNumber).state)
  {
    if clock.today in store.buckets {
      var keep := Survives(name, PrefixStudentNumber(clock.today.year, studentNumber));
      FilterKeepsBucketOk(keep, store.buckets[clock.today], store.blacklist);
    }
  }

  /** A state-changing call to the route. */
  datatype SongCall =
    | Post(clock: Clock, form: SongRequestForm)
    | Delete(clock: Clock, name: string, studentNumber: string)

  function Apply(store: SongStore, call: SongCall): SongStore
  {
    match call
    case Post(clock, form) => AddRequest(store, clock, form).state
    case Delete(clock, name, studentNumber) => DeleteRequest(store, clock, name, studentNumber).state
  }

  /** The store after the calls, handled one at a time in order. */
  function Run(store: SongStore, calls: seq<SongCall>): SongStore
    decreases |calls|
  {
    if calls == [] then store else Run(Apply(store, calls[0]), calls[1..])
  }

  /** Every sequence of POSTs and DELETEs keeps every bucket within the invariant. */
  lemma {:induction false} RunKeepsStoreOk(store: SongStore, calls: seq<SongCall>)
    requires StoreOk(store)
    ensures StoreOk(Run(store, calls))
    ensures Run(store, calls).blacklist == store.blacklist
    decreases |calls|
  {
    if calls != [] {
      match calls[0] {
        case Post(clock, form) => AddKeepsStoreOk(store, clock, form);
        case Delete(clock, name, studentNumber) => DeleteKeepsStoreOk(store, clock, name, studentNumber);
      }
      RunKeepsStoreOk(Apply(store, calls[0]), calls[1..]);
    }
  }

  /**
   Starting from no buckets at all, any sequence of calls leaves each day with
   at most ten requests, distinct normalised titles, distinct student numbers,
   distinct singers and no blacklisted number.
   */
  lemma RunFromEmpty(blacklist: seq<BlacklistEntry>, calls: seq<SongCall>, day: CalendarDate)
    ensures var bucket := Bucket(Run(SongStore(map[], blacklist), calls), day);
      && |bucket| <= DailyLimit
      && DistinctBy(bucket, TitleKey)
      && DistinctBy(bucket, NumberKey)
      && DistinctBy(bucket, SingerKey)
      && forall i :: 0 <= i < |bucket| ==> !OnBlacklist(blacklist, bucket[i].studentNumber)
  {
    RunKeepsStoreOk(SongStore(map[], blacklist), calls);
  }
}
