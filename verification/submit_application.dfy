/**
 The application route (`app/api/submit-application/route.ts`): an
 operator-controlled flag document gates an unconditional append.
 */
module Applications {
  import opened Common

  /** The POST body. */
  datatype ApplicationForm =
    ApplicationForm(name: string, studentNumber: string, applicationFileURL: string, fileType: string)

  datatype StoredApplication =
    StoredApplication(name: string, studentNumber: string, applicationFileURL: string, fileType: string, timestamp: int)

  /** The flag document (`isValid` and its `message`) and the global application list. */
  datatype ApplicationStore = ApplicationStore(flag: Validity, applications: seq<StoredApplication>)

  function Record(form: ApplicationForm, requestedTime: int): StoredApplication
  {
    StoredApplication(form.name, form.studentNumber, form.applicationFileURL, form.fileType, requestedTime)
  }

  /**
   POST: while the flag is off the submission is refused with the flag's own
   message; while it is on, the record is appended with no other check.
   */
  function SubmitApplication(store: ApplicationStore, form: ApplicationForm, requestedTime: int): (r: Reply<ApplicationStore>)
    ensures r.state.flag == store.flag
    ensures r.response.isValid == store.flag.isValid
    ensures !store.flag.isValid ==> r == Reply(store, Validity(false, store.flag.message))
    ensures store.flag.isValid ==>
      && r.response == Validity(true, "")
      && |r.state.applications| == |store.applications| + 1
      && r.state.applications[..|store.applications|] == store.applications
      && r.state.applications[|store.applications|].name == form.name
      && r.state.applications[|store.applications|].studentNumber == form.studentNumber
      && r.state.applications[|store.applications|].applicationFileURL == form.applicationFileURL
      && r.state.applications[|store.applications|].fileType == form.fileType
      && r.state.applications[|store.applications|].timestamp == requestedTime
  {
    if !store.flag.isValid then
      Reply(store, Validity(false, store.flag.message))
    else
      Reply(store.(applications := store.applications + [Record(form, requestedTime)]), Validity(true, ""))
  }

  /** The store after the submissions, handled one at a time in order. */
  function SubmitAll(store: ApplicationStore, calls: seq<(ApplicationForm, int)>): ApplicationStore
    decreases |calls|
  {
    if calls == [] then store
    else SubmitAll(SubmitApplication(store, calls[0].0, calls[0].1).state, calls[1..])
  }

  function Records(calls: seq<(ApplicationForm, int)>): (r: seq<StoredApplication>)
    ensures |r| == |calls|
  {
    seq(|calls|, i requires 0 <= i < |calls| => Record(calls[i].0, calls[i].1))
  }

  /**
   Over any run of submissions the flag never changes; with the flag on, every
   submission lands at the end in arrival order; with it off, nothing changes.
   */
  lemma {:induction false} SubmitAllByFlag(store: ApplicationStore, calls: seq<(ApplicationForm, int)>)
    ensures SubmitAll(store, calls).flag == store.flag
    ensures store.flag.isValid ==> SubmitAll(store, calls).applications == store.applications + Records(calls)
    ensures !store.flag.isValid ==> SubmitAll(store, calls) == store
    decreases |calls|
  {
    if calls != [] {
      var next := SubmitApplication(store, calls[0].0, calls[0].1).state;
      SubmitAllByFlag(next, calls[1..]);
      if store.flag.isValid {
        assert Records(calls) == [Record(calls[0].0, calls[0].1)] + Records(calls[1..]);
      }
    }
  }
}
