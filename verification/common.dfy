/**
 Values shared by the three server routes: the `{isValid, message}` reply
 body, blacklist entries, the calendar day and the server clock.
 */
module Common {

  /** The JSON body every POST/DELETE route answers with. */
  datatype Validity = Validity(isValid: bool, message: string)

  /** One blacklist entry; only its student number is ever consulted. */
  datatype BlacklistEntry = BlacklistEntry(name: string, studentNumber: string)

  /** A route's effect: the store after the call and the reply it sends. */
  datatype Reply<S> = Reply(state: S, response: Validity)

  /** The calendar day (in the server's fixed time zone) that keys a bucket. */
  datatype CalendarDate = CalendarDate(year: nat, month: nat, day: nat)

  /** One reading of the server clock: the day it falls on and its epoch milliseconds. */
  datatype Clock = Clock(today: CalendarDate, millis: int)

  /** The rejection text both the song and the suggestion routes use for a blacklisted student. */
  const BlacklistMessage: string :=
    "블랙리스트에 등록되신 것 같습니다. 최근 신청 시 주의사항을 위반한 적이 있는지 확인해주세요"

  /** `blacklist.some(e => e.studentNumber === studentNumber)`. */
  predicate OnBlacklist(blacklist: seq<BlacklistEntry>, studentNumber: string)
  {
    exists i :: 0 <= i < |blacklist| && blacklist[i].studentNumber == studentNumber
  }
}
