/** The failures the parser raises, with the message text each JavaScript `Error` carries. */
module Errors {
  import opened Text

  datatype Error =
    | MissingEquals
    | EmptyOptionName
    | UnknownOptionName(name: string)
    | MustBeAtTopLevel(name: string)
    | NotAllowedInMain(name: string)
    | InvalidNetworkName(text: string)
      /** A failure on one line, re-raised with its 1-based number and the line as read. */
    | ParseError(inner: Error, lineNumber: nat, line: string)

  /** The `message` of the thrown error. The text for `MustBeAtTopLevel` keeps the
      unbalanced quote of src/util.ts:29. The network-name message lives in a file that is
      not part of this model; its text here only has the shape the tests look for. */
  function Message(e: Error): string
  {
    match e
    case MissingEquals => "Expected \"name = value\""
    case EmptyOptionName => "Empty option name"
    case UnknownOptionName(name) => "Unknown option name \"" + name + "\""
    case MustBeAtTopLevel(name) => "Option \"" + name + " must be at the top level"
    case NotAllowedInMain(name) => "Option \"" + name + "\" is not allowed in \"main\" section"
    case InvalidNetworkName(text) => "Expected \"" + text + "\" to be one of main,regtest,test"
    case ParseError(inner, n, line) =>
      "Parse error: " + Message(inner) + ": line " + NatToString(n) + ": " + line
  }

  /** A wrapped message ends with the original line, preceded by the line number, which
      reads back as the number it was built from. */
  lemma ParseErrorMessageLocates(inner: Error, n: nat, line: string)
    ensures var m := Message(ParseError(inner, n, line));
            var digits := NatToString(n);
            var start := |m| - |line| - 2 - |digits|;
            && |m| >= |line| + 2 + |digits| + 13
            && m[..13] == "Parse error: "
            && m[|m| - |line|..] == line
            && m[start..start + |digits|] == digits
            && DecimalValue(m[start..start + |digits|]) == n
  {
    DecimalRoundTrip(n);
    var m := Message(ParseError(inner, n, line));
    var digits := NatToString(n);
    var head := "Parse error: " + Message(inner) + ": line ";
    assert m == head + digits + ": " + line;
    assert m[|head|..|head| + |digits|] == digits;
  }
}
