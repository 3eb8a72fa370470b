/**
 * The `--port` option of the command line: a single token that starts with
 * "COM", in any letter case, is accepted and upper-cased; anything else is an
 * error message for the parser. Only ASCII letters change case in this model.
 */
module CommonOptions {
  import opened Wrappers

  /** Why the port option is rejected; the parser shows `ErrorMessage` of it. */
  datatype PortError =
    | Missing                        // no token at all
    | InvalidValue(argument: string) // the token does not start with "COM"
    | MoreThanOneToken               // `Single()` throws on a second token

  /** The text set as `ErrorMessage` (or carried by the exception of `Single()`). */
  function ErrorMessage(e: PortError): string
  {
    match e
    case Missing => "COM port is missing"
    case InvalidValue(argument) => "Invalid value provided for the argument " + argument
    case MoreThanOneToken => "Sequence contains more than one element"
  }

  /** A lower-case ASCII letter. */
  predicate IsAsciiLower(c: char)
  {
    'a' <= c <= 'z'
  }

  /** `char.ToUpperInvariant` on ASCII: a lower-case letter becomes its capital, anything else stays. */
  function Upper(c: char): char
  {
    if IsAsciiLower(c) then (c as int - 32) as char else c
  }

  /** `string.ToUpperInvariant()`: every character upper-cased, in place. */
  function ToUpperInvariant(s: string): (r: string)
    ensures |r| == |s|
  {
    seq(|s|, i requires 0 <= i < |s| => Upper(s[i]))
  }

  /** `s.StartsWith(prefix, StringComparison.InvariantCultureIgnoreCase)`. */
  predicate StartsWithIgnoreCase(s: string, prefix: string)
  {
    |s| >= |prefix| && forall i :: 0 <= i < |prefix| ==> Upper(s[i]) == Upper(prefix[i])
  }

  /** The port prefix every accepted value carries. */
  const PortPrefix: string := "COM"

  /**
   * `ParseComPortArgument`: the tokens given after `-p`/`--port` and the
   * argument's name (for the message) give the port name or an error.
   */
  function ParseComPortArgument(tokens: seq<string>, argument: string): (r: Result<string, PortError>)
    ensures r == Failure(Missing) <==> tokens == []
    ensures r == Failure(MoreThanOneToken) <==> |tokens| > 1
    ensures r.Success? <==> |tokens| == 1 && StartsWithIgnoreCase(tokens[0], PortPrefix)
    ensures r.Failure? && r.error.InvalidValue? ==> r.error.argument == argument
    ensures r.Success? ==> r.value == ToUpperInvariant(tokens[0])
    ensures r.Success? ==> |r.value| == |tokens[0]| && r.value[..3] == PortPrefix
  {
    if |tokens| == 0 then Failure(Missing)
    else if |tokens| > 1 then Failure(MoreThanOneToken)
    else if StartsWithIgnoreCase(tokens[0], PortPrefix) then
      var port := ToUpperInvariant(tokens[0]);
      assert port[..3] == PortPrefix by {
        assert Upper(tokens[0][0]) == 'C' && Upper(tokens[0][1]) == 'O' && Upper(tokens[0][2]) == 'M';
      }
      Success(port)
    else Failure(InvalidValue(argument))
  }

  /** Upper-casing a character twice changes nothing, and leaves no lower-case letter. */
  lemma UpperIdempotent(c: char)
    ensures Upper(Upper(c)) == Upper(c) && !IsAsciiLower(Upper(c))
  {
  }

  /** Upper-casing a string twice changes nothing. */
  lemma ToUpperIdempotent(s: string)
    ensures ToUpperInvariant(ToUpperInvariant(s)) == ToUpperInvariant(s)
  {
    var u := ToUpperInvariant(s);
    forall i | 0 <= i < |s|
      ensures ToUpperInvariant(u)[i] == u[i]
    {
      UpperIdempotent(s[i]);
    }
  }

  /** Ignoring case means comparing the upper-cased texts. */
  lemma StartsWithUpper(s: string, prefix: string)
    requires |s| >= |prefix|
    ensures StartsWithIgnoreCase(s, prefix) <==> ToUpperInvariant(s)[..|prefix|] == ToUpperInvariant(prefix)
  {
    if ToUpperInvariant(s)[..|prefix|] == ToUpperInvariant(prefix) {
      forall i | 0 <= i < |prefix|
        ensures Upper(s[i]) == Upper(prefix[i])
      {
        assert ToUpperInvariant(s)[..|prefix|][i] == Upper(s[i]);
      }
    }
  }

  /** The letter case of the typed port does not matter: "com3", "Com3" and "COM3" give the same port. */
  lemma CaseInsensitive(s: string, t: string, argument: string)
    requires ToUpperInvariant(s) == ToUpperInvariant(t)
    ensures ParseComPortArgument([s], argument) == ParseComPortArgument([t], argument)
  {
    if StartsWithIgnoreCase(s, PortPrefix) {
      forall i | 0 <= i < 3
        ensures Upper(t[i]) == Upper(PortPrefix[i])
      {
        assert ToUpperInvariant(s)[i] == ToUpperInvariant(t)[i];
      }
    } else if StartsWithIgnoreCase(t, PortPrefix) {
      forall i | 0 <= i < 3
        ensures Upper(s[i]) == Upper(PortPrefix[i])
      {
        assert ToUpperInvariant(s)[i] == ToUpperInvariant(t)[i];
      }
    }
  }

  /** An accepted port, given again as the only token, is accepted unchanged. */
  lemma ParseIdempotent(tokens: seq<string>, argument: string, argument': string)
    requires ParseComPortArgument(tokens, argument).Success?
    ensures var port := ParseComPortArgument(tokens, argument).value;
      ParseComPortArgument([port], argument') == Success(port)
  {
    var port := ParseComPortArgument(tokens, argument).value;
    ToUpperIdempotent(tokens[0]);
    assert StartsWithIgnoreCase(port, PortPrefix) by {
      forall i | 0 <= i < 3
        ensures Upper(port[i]) == Upper(PortPrefix[i])
      {
        assert port[..3][i] == port[i];
      }
    }
  }

  /** Every port name not starting with "COM" in some letter case is refused, naming the argument. */
  lemma InvalidPrefix(token: string, argument: string)
    requires !StartsWithIgnoreCase(token, PortPrefix)
    ensures ParseComPortArgument([token], argument) == Failure(InvalidValue(argument))
    ensures ErrorMessage(ParseComPortArgument([token], argument).error)
      == "Invalid value provided for the argument " + argument
  {
  }

  /** With no token the error says the port is missing. */
  lemma NoToken(argument: string)
    ensures ErrorMessage(ParseComPortArgument([], argument).error) == "COM port is missing"
  {
  }
}
