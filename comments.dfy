/**
 * Help text built from buffered comment lines (`_join_msg`, identical in the
 * config-file parser and the dataclass parser).
 */
module Comments {
  import opened Text

  /** `_join_msg` as written: the buffered messages joined by single spaces,
      or a single space when the buffer is empty. The help text is empty
      exactly for the buffer `[""]`, and otherwise starts with the first
      buffered message. */
  function JoinMsgAsWritten(msgs: seq<string>): (r: string)
    ensures r == "" <==> msgs == [""]
    ensures msgs == [] ==> r == " "
    ensures msgs != [] ==> StartsWith(r, msgs[0])
  {
    if msgs != [] then JoinSpace(msgs) else " "
  }

  /** A comment line holding only `#` leaves the message `""` in the buffer,
      and the function as written then returns the empty help string that its
      own fallback exists to avoid. */
  lemma JoinMsgAsWrittenCanBeEmpty()
    ensures JoinMsgAsWritten([""]) == ""
  {
  }

  /** `_join_msg` with the fallback applied to an empty join. */
  function JoinMsg(msgs: seq<string>): string
  {
    var joined := JoinSpace(msgs);
    if joined == "" then " " else joined
  }

  /** The corrected help text is never empty, an empty buffer gives `" "`,
      and wherever the function as written returns a non-empty string the
      corrected one returns the same. */
  lemma JoinMsgNeverEmpty(msgs: seq<string>)
    ensures JoinMsg(msgs) != ""
    ensures msgs == [] ==> JoinMsg(msgs) == " "
    ensures JoinMsgAsWritten(msgs) != "" ==> JoinMsg(msgs) == JoinMsgAsWritten(msgs)
  {
  }
}
