/**
 * `getArguments` (src/index.ts): the decision from the process argument list (the node
 * binary, the script, then the user's arguments) to the target address and the number of
 * workers, or to the error it throws.
 */
module Arguments {
  import opened Wrappers
  import opened Text
  import opened IpPattern
  import opened IntParsing

  const NotEnoughArguments := "Not enough arguments."
  const TooManyArguments := "Too many arguments."
  const HelpRequested := "help"
  const BadThreadNumber := "Failed to parse thread number."
  const BadAddress := "Not a valid IPADDR; Must be IPv4 or IPv6."
  const InvalidSyntax := "Invalid syntax."

  /**
   * What getArguments throws: an Error with one of the messages above, or the TypeError
   * raised by calling `match` on the missing fifth argument.
   */
  datatype ArgError = Thrown(message: string) | ReadOfUndefined

  /** The validated scan target: the matched address text and the number of workers. */
  datatype Config = Config(ip: string, threads: int)

  /** `flag.includes("-h") || flag.includes("-help")`. */
  predicate AsksForHelp(flag: string) {
    Contains(flag, "-h") || Contains(flag, "-help")
  }

  /** The second test is implied by the first: "-help" starts with "-h". */
  lemma AsksForHelpIsDashH(flag: string)
    ensures AsksForHelp(flag) <==> Contains(flag, "-h")
  {
    if Contains(flag, "-help") {
      ContainsPrefix(flag, "-help", "-h");
    }
  }

  /** `!threads` on the result of parseInt: NaN and zero are falsy. */
  predicate Falsy(n: Option<int>) {
    n == None || n == Some(0)
  }

  /**
   * getArguments(args).  With "-j" and only three arguments, `args[3]` is undefined and
   * parseInt reads the text "undefined", which is NaN.
   */
  function GetArguments(args: seq<string>): Result<Config, ArgError> {
    if |args| < 3 then Failure(Thrown(NotEnoughArguments))
    else if |args| > 5 then Failure(Thrown(TooManyArguments))
    else
      var flag := args[2];
      match IpMatch(flag)
      case Some(ip) => Success(Config(ip, 4))
      case None =>
        if AsksForHelp(flag) && |args| == 3 then Failure(Thrown(HelpRequested))
        else if AsksForHelp(flag) then Failure(Thrown(TooManyArguments))
        else if Contains(flag, "-j") then
          var threads := ParseInt(if |args| > 3 then args[3] else "undefined");
          if Falsy(threads) then Failure(Thrown(BadThreadNumber))
          else if |args| < 5 then Failure(ReadOfUndefined)
          else
            match IpMatch(args[4])
            case None => Failure(Thrown(BadAddress))
            case Some(ip) => Success(Config(ip, threads.value))
        else Failure(Thrown(InvalidSyntax))
  }

  /** Fewer than three or more than five arguments are refused before anything else. */
  lemma ArgumentCountOutcomes(args: seq<string>)
    ensures |args| < 3 ==> GetArguments(args) == Failure(Thrown(NotEnoughArguments))
    ensures |args| > 5 ==> GetArguments(args) == Failure(Thrown(TooManyArguments))
  {
  }

  /** A flag the pattern matches is the address itself, scanned with 4 workers. */
  lemma AddressFlagOutcome(args: seq<string>)
    requires 3 <= |args| <= 5 && IpMatch(args[2]).Some?
    ensures GetArguments(args) == Success(Config(IpMatch(args[2]).value, 4))
  {
  }

  /** A non-address flag asking for help: "help" when alone, too many arguments otherwise. */
  lemma HelpFlagOutcome(args: seq<string>)
    requires 3 <= |args| <= 5 && IpMatch(args[2]).None? && AsksForHelp(args[2])
    ensures GetArguments(args) == Failure(Thrown(if |args| == 3 then HelpRequested else TooManyArguments))
  {
  }

  /**
   * A success has a non-zero thread count; unless the flag is itself the address, it came
   * from "-j", the parsed fourth argument and the match in the fifth.
   */
  lemma SuccessOutcome(args: seq<string>)
    requires GetArguments(args).Success?
    ensures var c := GetArguments(args).value;
      && 3 <= |args| <= 5 && c.threads != 0
      && (IpMatch(args[2]).None? ==>
            |args| == 5 && Contains(args[2], "-j") && IpMatch(args[4]) == Some(c.ip) &&
            ParseInt(args[3]) == Some(c.threads))
  {
  }

  /** The text "undefined" that parseInt reads for a missing argument is NaN. */
  lemma UndefinedIsNaN()
    ensures ParseInt("undefined") == None
  {
    ParseIntOfNonNumeric("undefined");
  }

  /**
   * The "-j" branch, outcome by outcome: the thread count is judged before the fifth
   * argument is looked at, so a NaN or zero count is reported whatever follows it (and
   * always when the count itself is missing); a good count with no fifth argument is the
   * TypeError; otherwise the fifth argument decides between the address error and success.
   */
  lemma ThreadFlagOutcomes(args: seq<string>)
    requires 3 <= |args| <= 5 && IpMatch(args[2]).None? && !AsksForHelp(args[2])
    requires Contains(args[2], "-j")
    ensures GetArguments(args) == Failure(Thrown(BadThreadNumber)) <==>
      |args| == 3 || Falsy(ParseInt(args[3]))
    ensures GetArguments(args) == Failure(ReadOfUndefined) <==>
      |args| == 4 && !Falsy(ParseInt(args[3]))
    ensures GetArguments(args) == Failure(Thrown(BadAddress)) <==>
      |args| == 5 && !Falsy(ParseInt(args[3])) && IpMatch(args[4]).None?
    ensures GetArguments(args).Success? <==>
      |args| == 5 && !Falsy(ParseInt(args[3])) && IpMatch(args[4]).Some?
  {
    UndefinedIsNaN();
  }

  /** "Invalid syntax." is thrown exactly for a flag that is no address and names no option. */
  lemma InvalidSyntaxOutcome(args: seq<string>)
    requires 3 <= |args| <= 5
    ensures GetArguments(args) == Failure(Thrown(InvalidSyntax)) <==>
      IpMatch(args[2]).None? && !Contains(args[2], "-h") && !Contains(args[2], "-j")
  {
    AsksForHelpIsDashH(args[2]);
  }

  /** "help" is thrown exactly for a lone non-address flag containing "-h". */
  lemma HelpOutcome(args: seq<string>)
    ensures GetArguments(args) == Failure(Thrown(HelpRequested)) <==>
      |args| == 3 && IpMatch(args[2]).None? && Contains(args[2], "-h")
  {
    if |args| >= 3 {
      AsksForHelpIsDashH(args[2]);
    }
  }

  /**
   * A returned address is what the pattern matched in the flag or in the fifth argument:
   * an IPv4 text at its start or an IPv6 text at its end.
   */
  lemma ReturnedAddressMatched(args: seq<string>)
    requires GetArguments(args).Success?
    ensures var a := if IpMatch(args[2]).Some? then args[2] else args[4];
      var ip := GetArguments(args).value.ip;
      || (ip <= a && Ipv4Text(ip))
      || (exists p :: 0 <= p <= |a| && ip == a[p..] && Ipv6Text(a[p..]))
  {
    IpMatchSound(args[2]);
    if IpMatch(args[2]).None? {
      IpMatchSound(args[4]);
    }
  }

  // ---------------------------------------------------------------------------
  // The cases of src/index.test.ts
  // ---------------------------------------------------------------------------

  const Node := "~/bin/node"
  const Script := "~/bin/ip_sniffer"

  lemma NotEnoughArgumentsCase()
    ensures GetArguments([Node, Script]) == Failure(Thrown(NotEnoughArguments))
  {
  }

  lemma TooManyArgumentsCases()
    ensures GetArguments([Node, Script, "-j", "10", "128.0.0.1", "extra"]) ==
      Failure(Thrown(TooManyArguments))
    ensures GetArguments([Node, Script, "-h", "10"]) == Failure(Thrown(TooManyArguments))
    ensures GetArguments([Node, Script, "-help", "10"]) == Failure(Thrown(TooManyArguments))
  {
    ShortTextUnmatched("-h");
    ShortTextUnmatched("-help");
    assert OccursAt("-h", "-h", 0);
    assert OccursAt("-help", "-h", 0);
  }

  lemma HelpCase()
    ensures GetArguments([Node, Script, "-h"]) == Failure(Thrown(HelpRequested))
  {
    ShortTextUnmatched("-h");
    assert OccursAt("-h", "-h", 0);
  }

  lemma InvalidSyntaxCase()
    ensures GetArguments([Node, Script, "-l"]) == Failure(Thrown(InvalidSyntax))
  {
    ShortTextUnmatched("-l");
    assert !OccursAt("-l", "-h", 0) && !OccursAt("-l", "-j", 0);
  }

  /** "-j" is no address, asks for no help and names the thread option. */
  lemma ThreadFlagText()
    ensures IpMatch("-j") == None && !AsksForHelp("-j") && Contains("-j", "-j")
  {
    ShortTextUnmatched("-j");
    assert OccursAt("-j", "-j", 0);
    assert !OccursAt("-j", "-h", 0);
  }

  lemma BadThreadNumberCase()
    ensures GetArguments([Node, Script, "-j", "none"]) == Failure(Thrown(BadThreadNumber))
  {
    WordIsNaN();
    ThreadFlagText();
    ThreadFlagOutcomes([Node, Script, "-j", "none"]);
  }

  lemma WordIsNaN()
    ensures ParseInt("none") == None
  {
    ParseIntOfNonNumeric("none");
  }

  lemma TenIsUsable()
    ensures !Falsy(ParseInt("10"))
  {
    TenIsTen();
  }

  lemma TenIsTen()
    ensures ParseInt("10") == Some(10)
  {
    ParseIntAtDigit("10");
    TenDigits();
    TenValue();
  }

  lemma TenDigits()
    ensures AllDigits("10") && DigitPrefix("10") == 2 && "10"[..2] == "10"
  {
    DigitPrefixOfNumeral("10", "");
    assert "10" + "" == "10";
  }

  lemma TenValue()
    ensures AllDigits("10") && DigitsValue("10") == 10
  {
    assert "10"[..1] == "1" && "1"[..0] == "";
  }

  /**
   * A thread count written as white space, an optional sign and digits is rejected by
   * `!threads` exactly when every digit is '0' ("0", "-00", "+000").
   */
  lemma FalsyCount(ws: string, sign: string, d: string, rest: string)
    requires forall k :: 0 <= k < |ws| ==> IsJsWhitespace(ws[k])
    requires sign == "" || sign == "+" || sign == "-"
    requires d != [] && AllDigits(d) && (rest == [] || !IsDigit(rest[0]))
    ensures Falsy(ParseInt(ws + (sign + d + rest))) <==> forall k :: 0 <= k < |d| ==> d[k] == '0'
  {
    ParseIntOfDigits(ws, sign, d, rest);
    DigitsValueZero(d);
  }

  const DoubleDot := "192.0..42"
  /** The test's malformed IPv6 address: upper-case hex, and the letter O in its fifth group. */
  const UpperCaseFront := "1200:0000:AB00:1234:"
  const UpperCaseTail := "000:2552:7777:1313"
  const UpperCaseV6 := UpperCaseFront + "O" + UpperCaseTail

  lemma BadIpv4AddressCase()
    ensures GetArguments([Node, Script, "-j", "10", DoubleDot]) == Failure(Thrown(BadAddress))
  {
    TenIsUsable();
    DoubleDotUnmatched();
    BadAddressAfterCount("10", DoubleDot);
  }

  /** "-j", a usable count, then text the pattern does not match. */
  lemma BadAddressAfterCount(count: string, addr: string)
    requires !Falsy(ParseInt(count)) && IpMatch(addr) == None
    ensures GetArguments([Node, Script, "-j", count, addr]) == Failure(Thrown(BadAddress))
  {
    ThreadFlagBadAddress([Node, Script, "-j", count, addr]);
  }

  lemma ThreadFlagBadAddress(args: seq<string>)
    requires |args| == 5 && args[2] == "-j" && !Falsy(ParseInt(args[3])) && IpMatch(args[4]).None?
    ensures GetArguments(args) == Failure(Thrown(BadAddress))
  {
    ThreadFlagText();
  }

  /** "-j", a usable count, then an address the pattern matches. */
  lemma GoodAddressAfterCount(count: string, addr: string, threads: int, ip: string)
    requires ParseInt(count) == Some(threads) && threads != 0 && IpMatch(addr) == Some(ip)
    ensures GetArguments([Node, Script, "-j", count, addr]) == Success(Config(ip, threads))
  {
    ThreadFlagSuccess([Node, Script, "-j", count, addr], threads, ip);
  }

  lemma ThreadFlagSuccess(args: seq<string>, threads: int, ip: string)
    requires |args| == 5 && args[2] == "-j"
    requires ParseInt(args[3]) == Some(threads) && threads != 0 && IpMatch(args[4]) == Some(ip)
    ensures GetArguments(args) == Success(Config(ip, threads))
  {
    ThreadFlagText();
  }

  lemma DoubleDotUnmatched()
    ensures IpMatch(DoubleDot) == None
  {
    DoubleDotNoIpv4();
    NoColonNoIpv6(DoubleDot);
    NoIpMatch(DoubleDot);
  }

  lemma DoubleDotNoIpv4()
    ensures Ipv4Prefix(DoubleDot) == None
  {
  }

  lemma BadIpv6AddressCase()
    ensures GetArguments([Node, Script, "-j", "10", UpperCaseV6]) == Failure(Thrown(BadAddress))
  {
    TenIsUsable();
    UpperCaseUnmatched();
    BadAddressAfterCount("10", UpperCaseV6);
  }

  lemma UpperCaseUnmatched()
    ensures IpMatch(UpperCaseV6) == None
  {
    FourDigitsUnmatchedAsIpv4(UpperCaseV6);
    UpperCaseUnmatchedAsIpv6();
    NoIpMatch(UpperCaseV6);
  }

  lemma UpperCaseUnmatchedAsIpv6()
    ensures Ipv6Start(UpperCaseV6, 0) == None
  {
    UpperCaseSplit();
    NoIpv6AroundBadCharacter(UpperCaseV6, UpperCaseFront, 'O', UpperCaseTail);
  }

  lemma UpperCaseSplit()
    ensures BadCharacterSplit(UpperCaseV6, UpperCaseFront, 'O', UpperCaseTail)
  {
  }

  /** `!threads` lets a negative count through. */
  lemma NegativeThreadCountAccepted()
    ensures GetArguments([Node, Script, "-j", "-3", "1.2.3.4"]) ==
      Success(Config("1.2.3.4", -3))
  {
    MinusThree();
    QuadMatched();
    GoodAddressAfterCount("-3", "1.2.3.4", -3, "1.2.3.4");
  }

  lemma MinusThree()
    ensures ParseInt("-3") == Some(-3)
  {
    ParseIntOfNegativeNumeral(3, "");
    assert "-" + (DecimalText(3) + "") == "-3";
  }

  lemma QuadMatched()
    ensures IpMatch("1.2.3.4") == Some("1.2.3.4")
  {
    DottedQuadMatched(1, 2, 3, 4, "");
    assert DottedQuad(1, 2, 3, 4) == "1.2.3.4";
    assert DottedQuad(1, 2, 3, 4) + "" == "1.2.3.4";
  }
}
