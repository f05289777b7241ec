/** The parser of the iptables programs with its heap blocks: one loop over the arguments fills a rule
    structure that owns two name buffers. */
module IptablesParser {
  import opened RuleLanguage
  import opened Bytes

  datatype Opcode = NONE | DELETE_RULE | NEW_CHAIN | POLICY_ACCEPT | POLICY_DROP

  /** A block that holds a copied string. */
  class Text {
    var text: string
    constructor (s: string)
      ensures text == s
    {
      text := s;
    }
  }

  class RuleBlock {
    var operation: Opcode
    var chain: Text?
    var table: Text?
    var ruleNum: int32

    /** Memory as malloc leaves it: `garbage` stands for its indeterminate value. */
    constructor (garbage: int32)
      ensures ruleNum == garbage
    {
      ruleNum := garbage;
    }

    /** The blocks that free_rule gives back. */
    ghost function Owned(): set<object>
      reads this
    {
      {this as object}
      + (if chain != null then {chain as object} else {})
      + (if table != null then {table as object} else {})
    }

    /** What has been read so far. */
    ghost function Contents(): State
      requires operation != NONE ==> chain != null
      requires operation == DELETE_RULE ==> ruleNum >= 0
      reads this, chain, table
    {
      State(
        match operation
        case NONE => None
        case DELETE_RULE => Some(DeleteRule(chain.text, ruleNum as nat))
        case NEW_CHAIN => Some(NewChain(chain.text))
        case POLICY_ACCEPT => Some(Policy(chain.text, true))
        case POLICY_DROP => Some(Policy(chain.text, false)),
        if table == null then None else Some(table.text))
    }
  }

  /** The process that runs the parser: `live` is the set of heap blocks that are allocated and not yet
      freed. With `policies` it is the extended program. */
  class Process {
    const policies: bool
    ghost var live: set<object>

    constructor (policies: bool)
      ensures this.policies == policies && live == {}
    {
      this.policies := policies;
      live := {};
    }

    /** Between two options: the live blocks are those of `base` and the ones the rule owns, the rule has
        a chain exactly when it has an operation. */
    ghost predicate AtLoopHead(r: RuleBlock, base: set<object>)
      reads this, r
    {
      && Holds(r, base)
      && (r.chain != null <==> r.operation != NONE)
      && (r.operation == DELETE_RULE ==> r.ruleNum >= 0)
    }

    /** No block is lost and none is owned twice. */
    ghost predicate Holds(r: RuleBlock, base: set<object>)
      reads this, r
    {
      && live == base + r.Owned() && base !! r.Owned()
      && (r.chain != null ==> r.chain != r.table)
    }

    /** s_malloc and strcpy. */
    method Duplicate(s: string) returns (p: Text)
      modifies this
      ensures fresh(p) && p.text == s
      ensures live == old(live) + {p}
    {
      p := new Text(s);
      live := live + {p};
    }

    /** free: only a live block may be given back. */
    ghost method Free(p: object)
      requires p in live
      modifies this
      ensures live == old(live) - {p}
    {
      live := live - {p};
    }

    /** s_free, without the assignment of NULL to the caller's pointer. */
    method SFree(p: Text?)
      requires p != null ==> p in live
      modifies this
      ensures live == old(live) - (if p != null then {p as object} else {})
    {
      if p != null {
        Free(p);
      }
    }

    /** free_rule: gives back every block the rule owns, and the rule; the result is the pointer of the
        caller. */
    method FreeRule(r: RuleBlock?) returns (ptr: RuleBlock?)
      requires r != null ==> r.Owned() <= live && (r.chain != null ==> r.chain != r.table)
      modifies this, r
      ensures ptr == null
      ensures live == old(live) - (if r != null then old(r.Owned()) else {})
    {
      ptr := r;
      if r != null {
        SFree(r.chain);
        r.chain := null;
        SFree(r.table);
        r.table := null;
        Free(r);
        ptr := null;
      }
    }

    method TableOption(r: RuleBlock, args: seq<string>, i: nat, ghost base: set<object>)
      returns (next: nat, error: bool)
      requires i < |args| && args[i] == "-t" && AtLoopHead(r, base)
      modifies this, r
      ensures Answer(args, i, old(r.Contents()), next, error) && (error ==> Holds(r, base))
      ensures !error ==> AtLoopHead(r, base) && NextClause(policies, args[i..], old(r.Contents())).next == r.Contents()
      ensures fresh(r.Owned() - old(r.Owned()))
    {
      next, error := i + 1, false;
      if next == |args| || !Operand(args[next]) {
        error := true;
        return;
      }
      if r.table != null {
        error := true;
        return;
      }
      r.table := Duplicate(args[next]);
      next := next + 1;
    }

    method NewChainOption(r: RuleBlock, args: seq<string>, i: nat, ghost base: set<object>)
      returns (next: nat, error: bool)
      requires i < |args| && args[i] == "-N" && AtLoopHead(r, base)
      modifies this, r
      ensures Answer(args, i, old(r.Contents()), next, error) && (error ==> Holds(r, base))
      ensures !error ==> AtLoopHead(r, base) && NextClause(policies, args[i..], old(r.Contents())).next == r.Contents()
      ensures fresh(r.Owned() - old(r.Owned()))
    {
      next, error := i, false;
      if r.operation != NONE {
        error := true;
        return;
      }
      next := next + 1;
      if next == |args| || !Operand(args[next]) {
        error := true;
        return;
      }
      r.chain := Duplicate(args[next]);
      r.operation := NEW_CHAIN;
      next := next + 1;
    }

    method DeleteOption(r: RuleBlock, args: seq<string>, i: nat, ghost base: set<object>)
      returns (next: nat, error: bool)
      requires i < |args| && args[i] == "-D" && AtLoopHead(r, base)
      requires NextNumberFits(args[i..], r.Contents())
      modifies this, r
      ensures Answer(args, i, old(r.Contents()), next, error) && (error ==> Holds(r, base))
      ensures !error ==> AtLoopHead(r, base) && NextClause(policies, args[i..], old(r.Contents())).next == r.Contents()
      ensures fresh(r.Owned() - old(r.Owned()))
    {
      next, error := i, false;
      if r.operation != NONE {
        error := true;
        return;
      }
      next := next + 1;
      if next == |args| || !Operand(args[next]) {
        error := true;
        return;
      }
      r.chain := Duplicate(args[next]);
      next := next + 1;
      if next == |args| || !Operand(args[next]) {
        error := true;
        return;
      }
      r.ruleNum := (Atoi(args[next]) - 1) as int32;
      if r.ruleNum < 0 {
        error := true;
        return;
      }
      r.operation := DELETE_RULE;
      next := next + 1;
    }

    method PolicyOption(r: RuleBlock, args: seq<string>, i: nat, ghost base: set<object>)
      returns (next: nat, error: bool)
      requires i < |args| && args[i] == "-P" && policies && AtLoopHead(r, base)
      modifies this, r
      ensures Answer(args, i, old(r.Contents()), next, error) && (error ==> Holds(r, base))
      ensures !error ==> AtLoopHead(r, base) && NextClause(policies, args[i..], old(r.Contents())).next == r.Contents()
      ensures fresh(r.Owned() - old(r.Owned()))
    {
      next, error := i, false;
      if r.operation != NONE {
        error := true;
        return;
      }
      next := next + 1;
      if next == |args| || !Operand(args[next]) {
        error := true;
        return;
      }
      r.chain := Duplicate(args[next]);
      next := next + 1;
      if next == |args| || !Operand(args[next]) {
        error := true;
        return;
      }
      if args[next] == "ACCEPT" {
        r.operation := POLICY_ACCEPT;
      } else if args[next] == "DROP" {
        r.operation := POLICY_DROP;
      } else {
        error := true;
        return;
      }
      next := next + 1;
    }

    /** An option method fails exactly where the reading fails, and moves on by as many arguments. */
    ghost predicate Answer(args: seq<string>, i: nat, st: State, next: nat, error: bool)
      requires i < |args|
    {
      var s := NextClause(policies, args[i..], st);
      if error then s.Error? else s.Continue? && next == i + s.consumed
    }

    /** One round of the loop: the dispatch on the option name. */
    method NextOption(r: RuleBlock, args: seq<string>, i: nat, ghost base: set<object>)
      returns (next: nat, error: bool, help: bool)
      requires i < |args| && AtLoopHead(r, base) && NextNumberFits(args[i..], r.Contents())
      modifies this, r
      ensures help <==> NextClause(policies, args[i..], old(r.Contents())).ShowHelp?
      ensures !help ==> Answer(args, i, old(r.Contents()), next, error)
      ensures Holds(r, base) && fresh(r.Owned() - old(r.Owned()))
      ensures !help && !error ==>
                AtLoopHead(r, base) && NextClause(policies, args[i..], old(r.Contents())).next == r.Contents()
    {
      next, error, help := i, false, false;
      if args[i] == "-t" {
        next, error := TableOption(r, args, i, base);
      } else if args[i] == "-N" {
        next, error := NewChainOption(r, args, i, base);
      } else if args[i] == "-D" {
        next, error := DeleteOption(r, args, i, base);
      } else if policies && args[i] == "-P" {
        next, error := PolicyOption(r, args, i, base);
      } else if args[i] == "-h" {
        help := true;
      } else {
        error := true;
      }
    }

    /** The block that a successful run returns: it holds the parsed rule, and it and its two buffers are
        the only blocks added to `base`. */
    ghost predicate Returned(r: RuleBlock, o: Outcome, base: set<object>)
      reads this, r, r.chain, r.table
    {
      && AtLoopHead(r, base)
      && r.chain != null && r.table != null
      && o.Accept? && r.table.text == o.rule.table
      && match o.rule.command
         case NewChain(chain) => r.operation == NEW_CHAIN && r.chain.text == chain
         case DeleteRule(chain, number) =>
           r.operation == DELETE_RULE && r.chain.text == chain && r.ruleNum as int == number
         case Policy(chain, accept) =>
           r.operation == (if accept then POLICY_ACCEPT else POLICY_DROP) && r.chain.text == chain
    }

    /** Parses the arguments after the program name. `exited` says that the help text was shown and the
        process left; otherwise `r` is the rule, or null after an error. */
    method Parse(args: seq<string>, garbage: int32) returns (r: RuleBlock?, exited: bool)
      requires NumbersFit(policies, args, INITIAL)
      modifies this
      ensures exited <==> RuleLanguage.Parse(policies, args) == Help
      ensures r != null <==> RuleLanguage.Parse(policies, args).Accept?
      ensures r != null ==> fresh(r.Owned()) && Returned(r, RuleLanguage.Parse(policies, args), old(live))
      ensures r == null ==> live == old(live)
    {
      exited := false;
      if |args| < 1 {
        return null, false;
      }
      ghost var base := live;
      r := new RuleBlock(garbage);
      live := live + {r};
      r.chain := null;
      r.table := null;
      r.operation := NONE;
      var error, i := false, 0;
      assert args[0..] == args;
      while i < |args|
        invariant i <= |args|
        invariant AtLoopHead(r, base) && fresh(r.Owned())
        invariant Read(policies, args[i..], r.Contents()) == RuleLanguage.Parse(policies, args)
        invariant NumbersFit(policies, args[i..], r.Contents())
      {
        ghost var at, was := i, r.Contents();
        var help;
        i, error, help := NextOption(r, args, i, base);
        if help {
          r := FreeRule(r);
          return null, true;
        }
        if error {
          break;
        }
        assert args[at..][NextClause(policies, args[at..], was).consumed..] == args[i..];
      }
      if !error && r.operation == NONE {
        error := true;
      }
      if !error && r.table == null {
        error := true;
      }
      if error {
        r := FreeRule(r);
      }
    }

    /** The command that main dispatches on. */
    method CommandOf(r: RuleBlock) returns (c: Option<Command>)
      requires r.operation != NONE ==> r.chain != null
      requires r.operation == DELETE_RULE ==> r.ruleNum >= 0
      ensures c == r.Contents().command
    {
      match r.operation
      case NONE => c := None;
      case DELETE_RULE => c := Some(DeleteRule(r.chain.text, r.ruleNum as nat));
      case NEW_CHAIN => c := Some(NewChain(r.chain.text));
      case POLICY_ACCEPT => c := Some(Policy(r.chain.text, true));
      case POLICY_DROP => c := Some(Policy(r.chain.text, false));
    }

    /** The whole program. `initOk` says that iptc_init returned a handle, `callOk` that the netfilter calls of
        the dispatched operation succeeded; where one fails, the process exits at once. `dispatched` is the
        rule that main dispatches on, `leaked` the rule that is still allocated when the process ends. */
    method Program(args: seq<string>, garbage: int32, initOk: bool, callOk: bool)
      returns (success: bool, dispatched: Option<Rule>, ghost leaked: RuleBlock?)
      requires NumbersFit(policies, args, INITIAL)
      modifies this
      ensures var o := RuleLanguage.Parse(policies, args);
              && (success <==> o == Help || (o.Accept? && initOk && callOk))
              && dispatched == (if o.Accept? && initOk then Some(o.rule) else None)
              && (live == old(live) <==> !o.Accept? || (initOk && callOk))
              && (leaked == null <==> live == old(live))
              && (leaked != null ==> fresh(leaked.Owned()) && Returned(leaked, o, old(live)))
    {
      ghost var base := live;
      dispatched, leaked := None, null;
      var r, exited := Parse(args, garbage);
      if r == null {
        return exited, None, null;
      }
      if !initOk {
        return false, None, r;
      }
      var c := CommandOf(r);
      dispatched := Some(Rule(c.value, r.table.text));
      if !callOk {
        return false, dispatched, r;
      }
      assert live == base + r.Owned();
      r := FreeRule(r);
      success := true;
    }
  }

  /** Lists for which the blocks are not given back: they are accepted, so when the library finds no such table
      the process exits with the rule, its chain and its table allocated. */
  lemma UnknownTable(policies: bool, table: string, chain: string)
    ensures NumbersFit(policies, ["-t", table, "-N", chain], INITIAL)
    ensures RuleLanguage.Parse(policies, ["-t", table, "-N", chain]) == Accept(Rule(NewChain(chain), table))
            <==> (table == "" || table[0] != '-') && (chain == "" || chain[0] != '-')
  {
    NewChainIff(policies, table, chain, true);
    assert Line(table, ["-N", chain], true) == ["-t", table, "-N", chain];
    var args := ["-t", table, "-N", chain];
    assert args[2..] == ["-N", chain] && args[2..][2..] == [];
  }
}
