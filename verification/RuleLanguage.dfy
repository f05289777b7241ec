/** The command lines of the iptables programs: their language, stated without the parser, and the
    step-by-step reading that the parser performs. `policies` is false for the base program and true for
    the extension that knows -P. */
module RuleLanguage {
  import opened Decimal
  import opened Sequences

  datatype Option<T> = None | Some(value: T)

  /** `number` counts from 0, one less than on the command line. */
  datatype Command =
    | NewChain(chain: string)
    | DeleteRule(chain: string, number: nat)
    | Policy(chain: string, accept: bool)

  datatype Rule = Rule(command: Command, table: string)

  datatype Outcome = Accept(rule: Rule) | Failure | Help

  // ----- atoi

  function SkipSpace(s: string): string
  {
    if s != [] && IsSpace(s[0]) then SkipSpace(s[1..]) else s
  }

  function LeadingDigits(s: string): (d: string)
    ensures AllDigits(d)
  {
    if s != [] && IsDigit(s[0]) then [s[0]] + LeadingDigits(s[1..]) else []
  }

  /** The value of the longest numeric prefix, zero without one. */
  function Atoi(s: string): int
  {
    var t := SkipSpace(s);
    if t != [] && t[0] == '-' then 0 - Value(LeadingDigits(t[1..]))
    else if t != [] && t[0] == '+' then Value(LeadingDigits(t[1..]))
    else Value(LeadingDigits(t))
  }

  // ----- the language

  /** An operand may be empty but does not begin with a dash. */
  predicate Operand(w: string)
  {
    w == "" || w[0] != '-'
  }

  predicate TableClause(w: seq<string>, table: string)
  {
    |w| == 2 && w[0] == "-t" && Operand(w[1]) && table == w[1]
  }

  predicate CommandClause(policies: bool, w: seq<string>, c: Command)
  {
    match c
    case NewChain(chain) => w == ["-N", chain] && Operand(chain)
    case DeleteRule(chain, number) =>
      |w| == 3 && w[0] == "-D" && w[1] == chain && Operand(chain) && Operand(w[2]) && Atoi(w[2]) == number + 1
    case Policy(chain, accept) =>
      policies && w == ["-P", chain, if accept then "ACCEPT" else "DROP"] && Operand(chain)
  }

  /** One table clause and one command clause, in either order, and nothing else. */
  predicate Sentence(policies: bool, args: seq<string>, r: Rule)
  {
    exists k :: 0 <= k <= |args| && (
      || (TableClause(args[..k], r.table) && CommandClause(policies, args[k..], r.command))
      || (CommandClause(policies, args[..k], r.command) && TableClause(args[k..], r.table)))
  }

  /** What may stand before -h for it to be reached. */
  ghost predicate Readable(policies: bool, w: seq<string>)
  {
    || w == []
    || (exists t :: TableClause(w, t))
    || (exists c :: CommandClause(policies, w, c))
    || (exists r :: Sentence(policies, w, r))
  }

  // ----- reading from left to right

  datatype State = State(command: Option<Command>, table: Option<string>)

  const INITIAL := State(None, None)

  datatype Step = Continue(next: State, consumed: nat) | Error | ShowHelp

  /** What the parser does with the next option, given what it has read before. */
  function NextClause(policies: bool, args: seq<string>, st: State): (s: Step)
    requires args != []
    ensures s.Continue? ==> 0 < s.consumed <= |args|
  {
    if args[0] == "-t" then
      if |args| < 2 || !Operand(args[1]) || st.table.Some? then Error
      else Continue(st.(table := Some(args[1])), 2)
    else if args[0] == "-N" then
      if st.command.Some? || |args| < 2 || !Operand(args[1]) then Error
      else Continue(st.(command := Some(NewChain(args[1]))), 2)
    else if args[0] == "-D" then
      if st.command.Some? || |args| < 3 || !Operand(args[1]) || !Operand(args[2]) || Atoi(args[2]) < 1 then Error
      else Continue(st.(command := Some(DeleteRule(args[1], Atoi(args[2]) - 1))), 3)
    else if policies && args[0] == "-P" then
      if st.command.Some? || |args| < 3 || !Operand(args[1]) || (args[2] != "ACCEPT" && args[2] != "DROP") then Error
      else Continue(st.(command := Some(Policy(args[1], args[2] == "ACCEPT"))), 3)
    else if args[0] == "-h" then ShowHelp
    else Error
  }

  function Read(policies: bool, args: seq<string>, st: State): Outcome
    decreases |args|
  {
    if args == [] then
      if st.command.Some? && st.table.Some? then Accept(Rule(st.command.value, st.table.value)) else Failure
    else
      match NextClause(policies, args, st)
      case Continue(next, n) => Read(policies, args[n..], next)
      case Error => Failure
      case ShowHelp => Help
  }

  function Parse(policies: bool, args: seq<string>): Outcome
  {
    Read(policies, args, INITIAL)
  }

  /** The number that the next step evaluates, if it evaluates one, is in the range for which the C standard
      defines atoi and the subtraction. */
  predicate NextNumberFits(args: seq<string>, st: State)
  {
    |args| >= 3 && args[0] == "-D" && st.command.None? && Operand(args[1]) && Operand(args[2])
    ==> -0x8000_0000 < Atoi(args[2]) < 0x8000_0000
  }

  /** Every number that the reading comes to evaluate is in that range. */
  predicate NumbersFit(policies: bool, args: seq<string>, st: State)
    decreases |args|
  {
    args == [] || (
      && NextNumberFits(args, st)
      && var s := NextClause(policies, args, st);
         s.Continue? ==> NumbersFit(policies, args[s.consumed..], s.next))
  }

  /** It is enough that every number after a -D is. */
  lemma {:induction false} NumbersFitIf(policies: bool, args: seq<string>, st: State)
    requires forall k :: 0 <= k < |args| - 2 && args[k] == "-D" ==> -0x8000_0000 < Atoi(args[k + 2]) < 0x8000_0000
    ensures NumbersFit(policies, args, st)
    decreases |args|
  {
    if args == [] {
    } else {
      var s := NextClause(policies, args, st);
      if s.Continue? {
        var rest := args[s.consumed..];
        forall k | 0 <= k < |rest| - 2 && rest[k] == "-D"
          ensures -0x8000_0000 < Atoi(rest[k + 2]) < 0x8000_0000
        {
          assert args[k + s.consumed] == "-D";
        }
        NumbersFitIf(policies, rest, s.next);
      }
    }
  }

  // ----- the exact accepted language

  /** `w` is a clause for something that `st` lacks, and `next` records it. */
  predicate Adds(policies: bool, w: seq<string>, st: State, next: State)
  {
    || (st.table.None? && next.table.Some? && next.command == st.command && TableClause(w, next.table.value))
    || (st.command.None? && next.command.Some? && next.table == st.table
        && CommandClause(policies, w, next.command.value))
  }

  /** A step succeeds exactly on a clause for something that was not given before. */
  lemma StepIff(policies: bool, args: seq<string>, st: State, next: State, n: nat)
    requires args != [] && n <= |args|
    ensures NextClause(policies, args, st) == Continue(next, n) <==> Adds(policies, args[..n], st, next)
  {
  }

  /** Once both clauses are read, only the end of the list is accepted. */
  lemma Complete(policies: bool, args: seq<string>, st: State)
    requires st.command.Some? && st.table.Some?
    ensures Read(policies, args, st)
            == if args == [] then Accept(Rule(st.command.value, st.table.value))
               else if args[0] == "-h" then Help else Failure
  {
  }

  /** With one clause read, the rest is the other clause; with the other clause and then -h, it is help. */
  lemma HalfAccept(policies: bool, args: seq<string>, st: State, r: Rule)
    requires st.command.Some? != st.table.Some?
    requires st.command.Some? ==> st.command.value == r.command
    requires st.table.Some? ==> st.table.value == r.table
    ensures Read(policies, args, st) == Accept(r)
            <==> if st.command.Some? then TableClause(args, r.table) else CommandClause(policies, args, r.command)
  {
  }

  /** The parser accepts exactly the sentences of the language and returns the rule they denote. */
  lemma AcceptedIff(policies: bool, args: seq<string>, r: Rule)
    ensures Parse(policies, args) == Accept(r) <==> Sentence(policies, args, r)
  {
    if args != [] {
      var s := NextClause(policies, args, INITIAL);
      if s.Continue? {
        StepIff(policies, args, INITIAL, s.next, s.consumed);
        if s.next.command == Some(r.command) || s.next.table == Some(r.table) {
          HalfAccept(policies, args[s.consumed..], s.next, r);
        } else {
          HalfOther(policies, args[s.consumed..], s.next, r);
        }
      }
    }
    if Sentence(policies, args, r) {
      var k :| 0 <= k <= |args| && (
        || (TableClause(args[..k], r.table) && CommandClause(policies, args[k..], r.command))
        || (CommandClause(policies, args[..k], r.command) && TableClause(args[k..], r.table)));
      var tableFirst := TableClause(args[..k], r.table);
      var next := if tableFirst then State(None, Some(r.table)) else State(Some(r.command), None);
      StepIff(policies, args, INITIAL, next, k);
      HalfAccept(policies, args[k..], next, r);
    }
  }

  /** A clause that is read stays in the rule. */
  lemma {:induction false} HalfOther(policies: bool, args: seq<string>, st: State, r: Rule)
    requires (st.command.Some? && st.command.value != r.command) || (st.table.Some? && st.table.value != r.table)
    ensures Read(policies, args, st) != Accept(r)
    decreases |args|
  {
    if args == [] {
    } else {
      var s := NextClause(policies, args, st);
      if s.Continue? {
        StepIff(policies, args, st, s.next, s.consumed);
        HalfOther(policies, args[s.consumed..], s.next, r);
      }
    }
  }

  // ----- the exact lists that show the help text

  lemma HelpAtEnd(policies: bool, args: seq<string>, st: State, k: nat)
    requires k < |args| && args[k] == "-h"
    requires k == 0 || exists next :: Adds(policies, args[..k], st, next)
    ensures Read(policies, args, st) == Help
  {
  }

  lemma HelpAfterTwo(policies: bool, args: seq<string>, j: nat, k: nat, st: State, full: State)
    requires j <= k < |args| && args[k] == "-h"
    requires Adds(policies, args[..j], INITIAL, st) && Adds(policies, args[j..k], st, full)
    ensures Parse(policies, args) == Help
  {
    StepIff(policies, args, INITIAL, st, j);
    Slices(args, j, k);
    HelpAtEnd(policies, args[j..], st, k - j);
  }

  lemma HelpAfterSentence(policies: bool, args: seq<string>, k: nat, r: Rule)
    requires k < |args| && args[k] == "-h" && Sentence(policies, args[..k], r)
    ensures Parse(policies, args) == Help
  {
    var w := args[..k];
    var j :| 0 <= j <= |w| && ((TableClause(w[..j], r.table) && CommandClause(policies, w[j..], r.command))
                               || (CommandClause(policies, w[..j], r.command) && TableClause(w[j..], r.table)));
    Slices(args, j, k);
    var st := if TableClause(w[..j], r.table) then State(None, Some(r.table)) else State(Some(r.command), None);
    HelpAfterTwo(policies, args, j, k, st, State(Some(r.command), Some(r.table)));
  }

  /** The help text is shown exactly when -h follows a readable beginning, whatever comes after it. */
  lemma HelpIff(policies: bool, args: seq<string>)
    ensures Parse(policies, args) == Help
            <==> exists k :: 0 <= k < |args| && args[k] == "-h" && Readable(policies, args[..k])
  {
    if Parse(policies, args) == Help {
      var k := HelpWitness(policies, args);
    }
    if exists k :: 0 <= k < |args| && args[k] == "-h" && Readable(policies, args[..k]) {
      var k :| 0 <= k < |args| && args[k] == "-h" && Readable(policies, args[..k]);
      var w := args[..k];
      if exists r :: Sentence(policies, w, r) {
        var r :| Sentence(policies, w, r);
        HelpAfterSentence(policies, args, k, r);
      } else if exists t :: TableClause(w, t) {
        var t :| TableClause(w, t);
        assert Adds(policies, w, INITIAL, State(None, Some(t)));
        HelpAtEnd(policies, args, INITIAL, k);
      } else if exists c :: CommandClause(policies, w, c) {
        var c :| CommandClause(policies, w, c);
        assert Adds(policies, w, INITIAL, State(Some(c), None));
        HelpAtEnd(policies, args, INITIAL, k);
      }
    }
  }

  lemma HelpWitness(policies: bool, args: seq<string>) returns (k: nat)
    requires Read(policies, args, INITIAL) == Help
    ensures k < |args| && args[k] == "-h" && Readable(policies, args[..k])
  {
    k := 0;
    var s := NextClause(policies, args, INITIAL);
    if s.Continue? {
      var n, rest := s.consumed, args[s.consumed..];
      StepIff(policies, args, INITIAL, s.next, n);
      assert Read(policies, rest, s.next) == Help;
      var s' := NextClause(policies, rest, s.next);
      if s'.Continue? {
        k := n + s'.consumed;
        StepIff(policies, rest, s.next, s'.next, s'.consumed);
        assert Read(policies, rest[s'.consumed..], s'.next) == Help;
        Complete(policies, rest[s'.consumed..], s'.next);
        Slices(args, n, k);
        TwoClauses(policies, args[..k], n, rest[..s'.consumed], s.next, s'.next);
        assert rest[s'.consumed..][0] == args[k];
      } else {
        k := n;
      }
    }
  }

  lemma TwoClauses(policies: bool, w: seq<string>, n: nat, second: seq<string>, st: State, full: State)
    requires n <= |w| && w[n..] == second
    requires Adds(policies, w[..n], INITIAL, st) && Adds(policies, second, st, full)
    ensures Readable(policies, w)
  {
    assert Sentence(policies, w, Rule(full.command.value, full.table.value));
  }

  // ----- which operands are accepted

  /** -t and another clause, in either order. */
  function Line(table: string, clause: seq<string>, tableFirst: bool): seq<string>
  {
    if tableFirst then ["-t", table] + clause else clause + ["-t", table]
  }

  lemma LineAccepted(policies: bool, table: string, clause: seq<string>, tableFirst: bool, c: Command)
    requires |clause| >= 2 && clause[0] != "-t"
    ensures Parse(policies, Line(table, clause, tableFirst)) == Accept(Rule(c, table))
            <==> TableClause(["-t", table], table) && CommandClause(policies, clause, c)
  {
    var args, r := Line(table, clause, tableFirst), Rule(c, table);
    AcceptedIff(policies, args, r);
    if TableClause(["-t", table], table) && CommandClause(policies, clause, c) {
      var k := if tableFirst then 2 else |clause|;
      assert args[..k] == (if tableFirst then ["-t", table] else clause);
      assert args[k..] == (if tableFirst then clause else ["-t", table]);
    }
    if Sentence(policies, args, r) {
      var k :| 0 <= k <= |args| && (
        || (TableClause(args[..k], table) && CommandClause(policies, args[k..], c))
        || (CommandClause(policies, args[..k], c) && TableClause(args[k..], table)));
      assert args[..k][0] == args[0];
      assert k == if tableFirst then 2 else |clause|;
      assert args[..k] == (if tableFirst then ["-t", table] else clause);
      assert args[k..] == (if tableFirst then clause else ["-t", table]);
    }
  }

  /** A new chain is accepted for every two names that do not begin with a dash, and for no others. */
  lemma NewChainIff(policies: bool, table: string, chain: string, tableFirst: bool)
    ensures Parse(policies, Line(table, ["-N", chain], tableFirst)) == Accept(Rule(NewChain(chain), table))
            <==> (table == "" || table[0] != '-') && (chain == "" || chain[0] != '-')
  {
    LineAccepted(policies, table, ["-N", chain], tableFirst, NewChain(chain));
  }

  /** A deletion is accepted, with the number less one, exactly if moreover the number begins with no dash and
      is at least 1. */
  lemma DeleteRuleIff(policies: bool, table: string, chain: string, number: string, n: nat, tableFirst: bool)
    ensures Parse(policies, Line(table, ["-D", chain, number], tableFirst)) == Accept(Rule(DeleteRule(chain, n), table))
            <==> && (table == "" || table[0] != '-') && (chain == "" || chain[0] != '-')
                 && (number == "" || number[0] != '-') && Atoi(number) == n + 1
  {
    LineAccepted(policies, table, ["-D", chain, number], tableFirst, DeleteRule(chain, n));
  }

  /** A policy is accepted by the extension alone, and only the two words in capitals. */
  lemma PolicyIff(policies: bool, table: string, chain: string, word: string, accept: bool, tableFirst: bool)
    ensures Parse(policies, Line(table, ["-P", chain, word], tableFirst)) == Accept(Rule(Policy(chain, accept), table))
            <==> && policies && (table == "" || table[0] != '-') && (chain == "" || chain[0] != '-')
                 && word == if accept then "ACCEPT" else "DROP"
  {
    LineAccepted(policies, table, ["-P", chain, word], tableFirst, Policy(chain, accept));
  }

  // ----- which numbers are read

  lemma {:induction false} SpaceSkipped(space: string, t: string)
    requires forall k :: 0 <= k < |space| ==> space[k] == ' ' || '\t' <= space[k] <= '\r'
    requires t == "" || !IsSpace(t[0])
    ensures SkipSpace(space + t) == t
  {
    if space == "" {
      assert space + t == t;
    } else {
      assert (space + t)[1..] == space[1..] + t;
      SpaceSkipped(space[1..], t);
    }
  }

  lemma {:induction false} DigitsTaken(d: string, rest: string)
    requires AllDigits(d) && (rest == "" || !IsDigit(rest[0]))
    ensures LeadingDigits(d + rest) == d
  {
    if d == "" {
      assert d + rest == rest;
    } else {
      assert (d + rest)[1..] == d[1..] + rest;
      DigitsTaken(d[1..], rest);
    }
  }

  /** atoi skips white space, takes one sign and the digits after it, and ignores what follows them. */
  lemma AtoiReads(space: string, sign: string, d: string, rest: string)
    requires forall k :: 0 <= k < |space| ==> space[k] == ' ' || '\t' <= space[k] <= '\r'
    requires sign == "" || sign == "+" || sign == "-"
    requires AllDigits(d) && (d == "" ==> sign != "")
    requires rest == "" || !('0' <= rest[0] <= '9')
    ensures Atoi(space + (sign + (d + rest))) == if sign == "-" then 0 - Value(d) else Value(d)
  {
    var t := sign + (d + rest);
    assert t[0] == if sign == "" then d[0] else sign[0];
    SpaceSkipped(space, t);
    DigitsTaken(d, rest);
    assert t[|sign|..] == d + rest;
  }

  // ----- printing a rule and parsing it back

  lemma AtoiNumeral(n: nat)
    ensures Atoi(Numeral(n)) == n
    ensures Operand(Numeral(n))
  {
    var s := Numeral(n);
    assert IsDigit(s[0]) && "" + ("" + (s + "")) == s;
    AtoiReads("", "", s, "");
    NumeralValue(n);
  }

  function PrintCommand(c: Command): seq<string>
  {
    match c
    case NewChain(chain) => ["-N", chain]
    case DeleteRule(chain, number) => ["-D", chain, Numeral(number + 1)]
    case Policy(chain, accept) => ["-P", chain, if accept then "ACCEPT" else "DROP"]
  }

  function Print(r: Rule, tableFirst: bool): seq<string>
  {
    Line(r.table, PrintCommand(r.command), tableFirst)
  }

  /** Every rule whose names do not begin with a dash, and no other rule, is read back from its command line, in
      either order. */
  lemma RoundTrip(policies: bool, r: Rule, tableFirst: bool)
    ensures Parse(policies, Print(r, tableFirst)) == Accept(r)
            <==> && (r.table == "" || r.table[0] != '-')
                 && (r.command.chain == "" || r.command.chain[0] != '-')
                 && (r.command.Policy? ==> policies)
  {
    match r.command
    case NewChain(chain) => NewChainIff(policies, r.table, chain, tableFirst);
    case DeleteRule(chain, number) =>
      AtoiNumeral(number + 1);
      DeleteRuleIff(policies, r.table, chain, Numeral(number + 1), number, tableFirst);
    case Policy(chain, accept) =>
      PolicyIff(policies, r.table, chain, if accept then "ACCEPT" else "DROP", accept, tableFirst);
  }

  // ----- the extension is conservative

  /** Wherever the base program does not fail, the extension does the same. */
  lemma {:induction false} ExtensionAgrees(args: seq<string>, st: State)
    ensures Read(false, args, st) == Failure || Read(true, args, st) == Read(false, args, st)
    decreases |args|
  {
    if args == [] {
    } else {
      var s := NextClause(false, args, st);
      if s.Continue? {
        ExtensionAgrees(args[s.consumed..], s.next);
      }
    }
  }

  /** Without -P the two programs agree on every list, failures included. */
  lemma {:induction false} SameWithoutPolicy(args: seq<string>, st: State)
    requires "-P" !in args
    ensures Read(true, args, st) == Read(false, args, st)
    decreases |args|
  {
    if args == [] {
    } else {
      var s := NextClause(false, args, st);
      if s.Continue? {
        SameWithoutPolicy(args[s.consumed..], s.next);
      }
    }
  }

  /** Everything the extension accepts beyond the base program sets a policy. */
  lemma AcceptedByBoth(args: seq<string>, r: Rule)
    ensures Parse(false, args) == Accept(r) <==> Parse(true, args) == Accept(r) && !r.command.Policy?
  {
    AcceptedIff(false, args, r);
    AcceptedIff(true, args, r);
  }

  lemma ClauseWords(policies: bool, w: seq<string>, c: Command)
    requires CommandClause(policies, w, c)
    ensures "-h" !in w && ("-P" in w <==> c.Policy?)
    ensures c.Policy? ==> policies
    ensures !c.Policy? ==> CommandClause(false, w, c)
  {
  }

  lemma SentenceWords(policies: bool, w: seq<string>, r: Rule)
    requires Sentence(policies, w, r)
    ensures "-h" !in w && ("-P" in w <==> r.command.Policy?)
    ensures r.command.Policy? ==> policies
    ensures !r.command.Policy? ==> Sentence(false, w, r)
  {
    var k :| 0 <= k <= |w| && ((TableClause(w[..k], r.table) && CommandClause(policies, w[k..], r.command))
                               || (CommandClause(policies, w[..k], r.command) && TableClause(w[k..], r.table)));
    InParts(w, k, "-h");
    InParts(w, k, "-P");
    if TableClause(w[..k], r.table) {
      ClauseWords(policies, w[k..], r.command);
    } else {
      ClauseWords(policies, w[..k], r.command);
    }
  }

  /** A readable beginning holds no -h, and holds -P exactly when one of its clauses sets a policy; without
      one it is readable for both programs. */
  lemma ReadableWords(policies: bool, w: seq<string>)
    ensures Readable(policies, w) ==> "-h" !in w && ("-P" in w ==> policies) && ("-P" !in w ==> Readable(false, w))
  {
    if c :| CommandClause(policies, w, c) {
      ClauseWords(policies, w, c);
    } else if r :| Sentence(policies, w, r) {
      SentenceWords(policies, w, r);
    }
  }

  /** The extension shows the help text after a beginning that holds a -P clause. */
  ghost predicate HelpAfterPolicy(args: seq<string>, k: nat)
    requires k < |args|
  {
    args[k] == "-h" && Readable(true, args[..k]) && "-P" in args[..k]
  }

  /** The base program never gets that far. */
  lemma BaseStopsAtPolicy(args: seq<string>, k: nat)
    requires k < |args| && HelpAfterPolicy(args, k)
    ensures Parse(true, args) == Help && Parse(false, args) != Help
  {
    HelpIff(true, args);
    HelpIff(false, args);
    ReadableWords(true, args[..k]);
    forall j | 0 <= j < |args| && args[j] == "-h"
      ensures !Readable(false, args[..j])
    {
      ReadableWords(false, args[..j]);
      FirstAt(args, j, k);
    }
  }

  /** The lists on which the two programs differ: those that set a policy, and those that ask for help after
      a -P clause. */
  lemma DifferIff(args: seq<string>)
    ensures Parse(true, args) != Parse(false, args)
            <==> || (exists r :: Sentence(true, args, r) && r.command.Policy?)
                 || (exists k :: 0 <= k < |args| && HelpAfterPolicy(args, k))
  {
    ExtensionAgrees(args, INITIAL);
    match Parse(true, args) {
      case Accept(r) =>
        AcceptedIff(true, args, r);
        AcceptedByBoth(args, r);
      case Help =>
        HelpIff(true, args);
        HelpIff(false, args);
        var k :| 0 <= k < |args| && args[k] == "-h" && Readable(true, args[..k]);
        ReadableWords(true, args[..k]);
        assert "-P" in args[..k] ==> HelpAfterPolicy(args, k);
      case Failure =>
    }
    if exists r :: Sentence(true, args, r) && r.command.Policy? {
      var r :| Sentence(true, args, r) && r.command.Policy?;
      AcceptedIff(true, args, r);
      AcceptedByBoth(args, r);
    }
    if exists k :: 0 <= k < |args| && HelpAfterPolicy(args, k) {
      var k :| 0 <= k < |args| && HelpAfterPolicy(args, k);
      BaseStopsAtPolicy(args, k);
    }
  }
}
