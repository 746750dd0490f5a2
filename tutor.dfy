/**
 * The submission form of the tutor page (`EnglishTutor` in
 * frontend/src/components/EnglishTutor.tsx): the guard on empty input, the
 * request it sends, how the reply or the failure lands in the page state, and
 * how a successful correction is prepended to the saved history. The network
 * call, the clock and the saved history are parameters or fields.
 */
module Tutor {
  import opened JsStrings
  import opened Wrappers
  import opened Stats
  import opened Corrector

  /** The body of the `POST /api/correct` request. */
  datatype Request = Request(korean: string, userEnglish: string)

  const MissingInput := "한국어 문장과 영어 번역을 모두 입력해주세요."
  const Unreachable := "서버에 연결할 수 없습니다. " + "백엔드 서버가 실행 중인지 확인해주세요."
  const FailurePrefix := "요청 처리 중 오류가 발생했습니다: "
  const UnknownError := "알 수 없는 오류"

  /** The most corrections the saved history keeps. */
  const HistoryLimit: nat := 100

  /**
   * The guard of `handleSubmit`: both fields must be non-blank, and the
   * request carries them trimmed.
   */
  function Validate(korean: string, userEnglish: string): (r: Result<Request>)
    ensures r.Failure? <==> Trim(korean) == "" || Trim(userEnglish) == ""
    ensures r.Failure? ==> r.error == MissingInput
    ensures r.Success? ==> r.value == Request(Trim(korean), Trim(userEnglish))
  {
    if Trim(korean) == "" || Trim(userEnglish) == "" then Failure(MissingInput)
    else Success(Request(Trim(korean), Trim(userEnglish)))
  }

  /** `[item, ...history].slice(0, 100)`. */
  function PrependCapped(item: HistoryItem, history: seq<HistoryItem>): (r: seq<HistoryItem>)
    ensures |r| == if |history| + 1 < HistoryLimit then |history| + 1 else HistoryLimit
    ensures r[0] == item
    ensures r[1..] == history[..|r| - 1]
  {
    var all := [item] + history;
    if |all| <= HistoryLimit then all else all[..HistoryLimit]
  }

  /** What the kind of a thrown value is, as far as the error handler looks. */
  datatype Thrown = TypeError | OtherError | NotAnError

  /**
   * How the request ended: a response that is not `ok` (its status and body
   * text), an exception from `fetch` or from reading the reply, or the
   * correction result.
   */
  datatype Outcome = HttpError(status: nat, body: string) | Threw(kind: Thrown, message: string) | Delivered(data: CorrectionResult)

  /** The message the catch block shows for a failed request. */
  function FailureMessage(outcome: Outcome): (r: string)
    requires !outcome.Delivered?
    ensures outcome.Threw? && outcome.kind == TypeError && Includes(outcome.message, "fetch") ==>
      r == Unreachable
    ensures !(outcome.Threw? && outcome.kind == TypeError && Includes(outcome.message, "fetch")) ==>
      |FailurePrefix| <= |r| && r[..|FailurePrefix|] == FailurePrefix && r != Unreachable
    ensures outcome.HttpError? ==>
      r == FailurePrefix + "서버 오류: " + NatToString(outcome.status) + " - " + outcome.body
  {
    assert FailurePrefix[0] != Unreachable[0];
    match outcome
    case HttpError(status, body) =>
      // `response.ok` is false: a plain `Error` is thrown and caught
      FailurePrefix + ("서버 오류: " + NatToString(status) + " - " + body)
    case Threw(kind, message) =>
      if kind == TypeError && Includes(message, "fetch") then Unreachable
      else if kind == NotAnError then FailurePrefix + UnknownError
      else FailurePrefix + message
  }

  /** The saved correction built from a delivered result. */
  function HistoryEntry(request: Request, data: CorrectionResult, now: nat, isoDate: string): (h: HistoryItem)
    ensures h.korean == request.korean && h.userEnglish == request.userEnglish
    ensures h.correctedSentence == data.correctedSentence && h.tags == data.tags
    ensures h.timestamp == now && h.id == NatToString(now) && h.date == isoDate
  {
    HistoryItem(NatToString(now), isoDate, request.korean, request.userEnglish, data.correctedSentence, data.tags, now)
  }

  /** The page state of the tutor form and the history saved in local storage. */
  class TutorPage {
    var korean: string
    var userEnglish: string
    var result: Option<CorrectionResult>
    var loading: bool
    var error: Option<string>
    var history: seq<HistoryItem>

    /** A fresh page over the history already saved. */
    constructor(saved: seq<HistoryItem>)
      ensures korean == "" && userEnglish == "" && result == None && error == None && !loading
      ensures history == saved
    {
      korean := "";
      userEnglish := "";
      result := None;
      loading := false;
      error := None;
      history := saved;
    }

    method Edit(newKorean: string, newEnglish: string)
      modifies this
      ensures korean == newKorean && userEnglish == newEnglish
      ensures result == old(result) && loading == old(loading) && error == old(error) && history == old(history)
    {
      korean := newKorean;
      userEnglish := newEnglish;
    }

    /**
     * `handleSubmit`: returns the request sent, if any. Blank input only sets
     * the error. Otherwise the reply is shown, or the failure message; only a
     * delivered result is saved, at the front of the history.
     */
    method HandleSubmit(outcome: Outcome, now: nat, isoDate: string) returns (sent: Option<Request>)
      modifies this
      ensures korean == old(korean) && userEnglish == old(userEnglish)
      ensures Validate(old(korean), old(userEnglish)).Failure? ==>
        && sent == None && error == Some(MissingInput)
        && result == old(result) && loading == old(loading) && history == old(history)
      ensures Validate(old(korean), old(userEnglish)).Success? ==>
        && sent == Some(Validate(old(korean), old(userEnglish)).value)
        && !loading
        && (outcome.Delivered? ==>
              && result == Some(outcome.data) && error == None
              && history == PrependCapped(HistoryEntry(sent.value, outcome.data, now, isoDate), old(history)))
        && (!outcome.Delivered? ==>
              && result == old(result) && error == Some(FailureMessage(outcome))
              && history == old(history))
    {
      var checked := Validate(korean, userEnglish);
      if checked.Failure? {
        error := Some(checked.error);
        return None;
      }
      loading := true;
      error := None;
      var request := checked.value;
      sent := Some(request);
      match outcome {
        case Delivered(data) =>
          result := Some(data);
          var item := HistoryEntry(request, data, now, isoDate);
          history := PrependCapped(item, history);
        case _ =>
          error := Some(FailureMessage(outcome));
      }
      loading := false;
    }

    /** `handleReset`: clears both inputs, the result and the error. */
    method HandleReset()
      modifies this
      ensures korean == "" && userEnglish == "" && result == None && error == None
      ensures loading == old(loading) && history == old(history)
    {
      korean := "";
      userEnglish := "";
      result := None;
      error := None;
    }
  }

  /** A successful submission leaves at most 100 saved corrections, newest first. */
  lemma HistoryStaysBounded(item: HistoryItem, history: seq<HistoryItem>)
    ensures 1 <= |PrependCapped(item, history)| <= HistoryLimit
    ensures |history| < HistoryLimit ==> PrependCapped(item, history) == [item] + history
    ensures |history| >= HistoryLimit ==> PrependCapped(item, history)[1..] == history[..HistoryLimit - 1]
  {
  }
}
