/** The crate's single error type: an opaque, human-readable message. */
module Errors {

  datatype Error = Error(msg: string)

  const DisplayPrefix := "error: "

  /** Both `From<String>` and `From<&str>`: the message is kept verbatim. */
  function FromMessage(msg: string): Error
  {
    Error(msg)
  }

  /** `Display`: the message behind a fixed `error: ` prefix. */
  function Display(e: Error): (r: string)
    ensures |r| == |DisplayPrefix| + |e.msg|
    ensures r[..|DisplayPrefix|] == DisplayPrefix
    ensures r[|DisplayPrefix|..] == e.msg
  {
    DisplayPrefix + e.msg
  }

  /**
   Converting a message into an error and displaying it shows exactly that
   message, so two errors display alike only when they carry the same text.
   */
  lemma DisplayFromMessage(m1: string, m2: string)
    ensures Display(FromMessage(m1))[|DisplayPrefix|..] == m1
    ensures Display(FromMessage(m1)) == Display(FromMessage(m2)) <==> m1 == m2
  {
    var d1, d2 := Display(FromMessage(m1)), Display(FromMessage(m2));
    if d1 == d2 {
      assert m1 == d1[|DisplayPrefix|..] == d2[|DisplayPrefix|..] == m2;
    }
  }
}
