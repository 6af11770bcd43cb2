/** The aggregate error of src/error.list.ts: it keeps every underlying error
    and folds their messages and stack traces into its own. */
module ErrorLists {
  import opened Strings

  /** A JavaScript `Error`, reduced to the two fields an ErrorList reads. */
  datatype Error = Error(message: string, stack: string)

  datatype ErrorList = ErrorList(name: string, message: string, stack: string, errors: seq<Error>)

  function Messages(errors: seq<Error>): (ms: seq<string>)
    ensures |ms| == |errors|
  {
    seq(|errors|, i requires 0 <= i < |errors| => errors[i].message)
  }

  function Stacks(errors: seq<Error>): (ss: seq<string>)
    ensures |ss| == |errors|
  {
    seq(|errors|, i requires 0 <= i < |errors| => errors[i].stack)
  }

  /** `new ErrorList(msg, errors)`: named after its class, carrying the
      given errors unchanged, its message led by `msg + ": "`. */
  function NewErrorList(msg: string, errors: seq<Error>): (e: ErrorList)
    ensures e.errors == errors
    ensures e.name == "ErrorList"
    ensures StartsWith(e.message, msg + ": ")
  {
    ErrorList("ErrorList", msg + ": " + Join(Messages(errors), ", "), Join(Stacks(errors), "\n\n"), errors)
  }

  /** Every underlying stack trace can be found in the aggregate's stack. */
  lemma StackContainsEach(msg: string, errors: seq<Error>, i: nat)
    requires i < |errors|
    ensures IsInfix(errors[i].stack, NewErrorList(msg, errors).stack)
  {
    JoinContainsPart(Stacks(errors), "\n\n", i);
  }

  /** Every underlying message can be found in the aggregate's message. */
  lemma MessageContainsEach(msg: string, errors: seq<Error>, i: nat)
    requires i < |errors|
    ensures IsInfix(errors[i].message, NewErrorList(msg, errors).message)
  {
    var e := NewErrorList(msg, errors);
    var joined := Join(Messages(errors), ", ");
    JoinContainsPart(Messages(errors), ", ", i);
    var k :| OccursAt(errors[i].message, joined, k);
    var off := |msg + ": "|;
    assert e.message == (msg + ": ") + joined;
    assert e.message[off + k..off + k + |errors[i].message|] == joined[k..k + |errors[i].message|];
    assert OccursAt(errors[i].message, e.message, off + k);
  }

  /** With no underlying errors the message is just the prefix and the stack is empty. */
  lemma EmptyErrorList(msg: string)
    ensures NewErrorList(msg, []).message == msg + ": "
    ensures NewErrorList(msg, []).stack == ""
    ensures NewErrorList(msg, []).errors == []
  {
  }
}
