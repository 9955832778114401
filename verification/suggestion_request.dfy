/**
 The suggestion route (`app/api/suggestion-request/route.ts`): a blacklist
 gate on the raw student number, then an append to the single global list
 with an empty answer.
 */
module Suggestions {
  import opened Common

  /** The POST body. An `answer` sent by the client is ignored. */
  datatype SuggestionForm = SuggestionForm(name: string, studentNumber: string, suggestion: string, answer: string)

  datatype StoredSuggestion =
    StoredSuggestion(name: string, studentNumber: string, suggestion: string, answer: string, timestamp: int)

  /** The suggestion blacklist document and the global suggestion list. */
  datatype SuggestionStore = SuggestionStore(blacklist: seq<BlacklistEntry>, suggestions: seq<StoredSuggestion>)

  const SuccessMessage: string := "건의사항이 성공적으로 신청되었습니다."

  /**
   POST: a blacklisted raw student number is refused and nothing is stored;
   otherwise one record with an empty answer and the caller's time is appended.
   */
  function AddSuggestion(store: SuggestionStore, form: SuggestionForm, requestedTime: int): (r: Reply<SuggestionStore>)
    ensures r.state.blacklist == store.blacklist
    ensures r.response.isValid <==> !OnBlacklist(store.blacklist, form.studentNumber)
    ensures !r.response.isValid ==> r == Reply(store, Validity(false, BlacklistMessage))
    ensures r.response.isValid ==>
      && r.response.message == SuccessMessage
      && |r.state.suggestions| == |store.suggestions| + 1
      && r.state.suggestions[..|store.suggestions|] == store.suggestions
      && r.state.suggestions[|store.suggestions|]
           == StoredSuggestion(form.name, form.studentNumber, form.suggestion, "", requestedTime)
  {
    if OnBlacklist(store.blacklist, form.studentNumber) then
      Reply(store, Validity(false, BlacklistMessage))
    else
      var record := StoredSuggestion(form.name, form.studentNumber, form.suggestion, "", requestedTime);
      Reply(store.(suggestions := store.suggestions + [record]), Validity(true, SuccessMessage))
  }

  /** GET: the stored list as it is. */
  function GetSuggestions(store: SuggestionStore): (r: seq<StoredSuggestion>)
    ensures r == store.suggestions
  {
    store.suggestions
  }

  /**
   What GET shows after a POST: the earlier list unchanged, followed by the
   new suggestion when it was accepted.
   */
  lemma GetAfterAdd(store: SuggestionStore, form: SuggestionForm, requestedTime: int)
    ensures var r := AddSuggestion(store, form, requestedTime);
      GetSuggestions(r.state) ==
        if r.response.isValid
        then GetSuggestions(store) + [StoredSuggestion(form.name, form.studentNumber, form.suggestion, "", requestedTime)]
        else GetSuggestions(store)
  {
  }

  /**
   The gate reads only the student number: two submissions with the same
   number get the same answer whatever their names, texts or answers.
   */
  lemma GateIgnoresAllButNumber(store: SuggestionStore, f: SuggestionForm, g: SuggestionForm, t: int, u: int)
    requires f.studentNumber == g.studentNumber
    ensures AddSuggestion(store, f, t).response == AddSuggestion(store, g, u).response
  {
  }

  /** The store after the submissions, handled one at a time in order. */
  function AddAll(store: SuggestionStore, calls: seq<(SuggestionForm, int)>): SuggestionStore
    decreases |calls|
  {
    if calls == [] then store
    else AddAll(AddSuggestion(store, calls[0].0, calls[0].1).state, calls[1..])
  }

  /** The records of the submissions whose student number is not on the blacklist, in order. */
  function Accepted(blacklist: seq<BlacklistEntry>, calls: seq<(SuggestionForm, int)>): seq<StoredSuggestion>
    decreases |calls|
  {
    if calls == [] then []
    else
      var form := calls[0].0;
      var mine :=
        if OnBlacklist(blacklist, form.studentNumber) then []
        else [StoredSuggestion(form.name, form.studentNumber, form.suggestion, "", calls[0].1)];
      mine + Accepted(blacklist, calls[1..])
  }

  /**
   Over any run of submissions the blacklist is untouched and the list only
   grows at its end, by exactly the accepted submissions in arrival order.
   */
  lemma {:induction false} AddAllAppendsAccepted(store: SuggestionStore, calls: seq<(SuggestionForm, int)>)
    ensures AddAll(store, calls) ==
      SuggestionStore(store.blacklist, store.suggestions + Accepted(store.blacklist, calls))
    decreases |calls|
  {
    if calls != [] {
      var next := AddSuggestion(store, calls[0].0, calls[0].1).state;
      AddAllAppendsAccepted(next, calls[1..]);
      var rest := Accepted(store.blacklist, calls[1..]);
      if OnBlacklist(store.blacklist, calls[0].0.studentNumber) {
        assert Accepted(store.blacklist, calls) == [] + rest;
        assert [] + rest == rest;
      } else {
        var form := calls[0].0;
        var x := StoredSuggestion(form.name, form.studentNumber, form.suggestion, "", calls[0].1);
        assert Accepted(store.blacklist, calls) == [x] + rest;
        assert store.suggestions + [x] + rest == store.suggestions + ([x] + rest);
      }
    }
  }
}
