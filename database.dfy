/** The storage layer's shared vocabulary (src/hourglass/database.go): the
    error values the backends and commands return, and `DatabaseErrors`,
    the collector through which the SQL backends report every failure of
    one call. */
module Database {
  import opened Wrappers
  import Strings
  import Decimal

  /** The schema version the relational backends migrate to
      (`DatabaseVersion` in database.go, `SqlVersion` in sql.go). */
  const DatabaseVersion: int := 2

  /** Every kind of error value the modelled code returns. */
  datatype Error =
    | NotFound                                   // ErrNotFound
    | BadFrontMatter                             // ErrBadFrontMatter
    | EndOfFile                                  // io.EOF
    | NumError(fn: string, num: string, kind: Decimal.NumErrorKind)  // *strconv.NumError
    | FieldCount(line: nat)                      // encoding/csv ErrFieldCount
    | IndexPanic                                 // a runtime index-out-of-range panic
    | TimeParse(value: string)                   // a failed time.Parse
    | Os(message: string)                        // an operating-system error
    | Driver(message: string)                    // an error from the SQL driver
    | Aggregate(messages: seq<string>)           // a *DatabaseErrors
    | Syntax(message: string)                    // a command-line SyntaxError
    | Plain(message: string)                     // errors.New
    | IdOverflow                                 // the id space of the flat file is used up
  {
    /** The text `Error()` gives for this value. */
    function Message(): string
    {
      match this
      case NotFound => "record not found"
      case BadFrontMatter => "invalid front matter"
      case EndOfFile => "EOF"
      case NumError(fn, num, kind) =>
        "strconv." + fn + ": parsing \"" + num + "\": "
        + (if kind == Decimal.SyntaxKind then "invalid syntax" else "value out of range")
      case FieldCount(line) => "record on line " + Decimal.FormatInt(line) + ": wrong number of fields"
      case IndexPanic => "runtime error: index out of range"
      case TimeParse(value) => "parsing time \"" + value + "\""
      case Os(message) => message
      case Driver(message) => message
      case Aggregate(messages) => ErrorText(messages)
      case Syntax(message) => "syntax error: " + message
      case Plain(message) => message
      case IdOverflow => "last-id cannot be incremented"
    }
  }

  /** `DatabaseErrors.Error()`: the collected messages joined by "; ". */
  function ErrorText(messages: seq<string>): (text: string)
    ensures messages == [] ==> text == ""
    ensures messages != [] && (forall i :: 0 <= i < |messages| ==> !Strings.Contains(messages[i], "; "))
      ==> Strings.Split(text, "; ") == messages
  {
    if messages != [] && (forall i :: 0 <= i < |messages| ==> !Strings.Contains(messages[i], "; ")) then
      Strings.TwoCharBorderFree("; ");
      Strings.SplitJoin(messages, "; ");
      Strings.Join(messages, "; ")
    else
      Strings.Join(messages, "; ")
  }

  /** The error a collector stands for when a call returns it: nil when it
      is empty, the collector itself otherwise. */
  function AsError(messages: seq<string>): (err: Option<Error>)
    ensures err.None? <==> messages == []
    ensures err.Some? ==> err.value.Message() == ErrorText(messages)
  {
    if messages == [] then None else Some(Aggregate(messages))
  }

  /** A text with no empty message is empty exactly when nothing was
      collected. */
  lemma {:induction false} ErrorTextEmpty(messages: seq<string>)
    requires forall i :: 0 <= i < |messages| ==> messages[i] != ""
    ensures ErrorText(messages) == "" <==> messages == []
  {
    if |messages| >= 2 {
      assert |Strings.Join(messages, "; ")| >= |messages[0]|;
    }
  }

  /** The accumulating error value of database.go. */
  class DatabaseErrors {
    var errors: seq<string>

    constructor ()
      ensures errors == []
    {
      errors := [];
    }

    /** `Error()`: the messages in append order, joined by "; ". */
    function Error(): (text: string)
      reads this
      ensures errors != [] && (forall i :: 0 <= i < |errors| ==> !Strings.Contains(errors[i], "; "))
        ==> Strings.Split(text, "; ") == errors
    {
      ErrorText(errors)
    }

    /** `Append(err)`: adds the error's message after the earlier ones. */
    method Append(err: Error)
      modifies this
      ensures errors == old(errors) + [err.Message()]
    {
      errors := errors + [err.Message()];
    }

    /** `IsEmpty()`: nothing has been collected. */
    function IsEmpty(): (empty: bool)
      reads this
      ensures empty <==> AsError(errors).None?
    {
      |errors| == 0
    }
  }
}
