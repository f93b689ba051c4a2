/** The kernel state the runtime owns a part of, the effect of each command on it, the path of a
    packet through it, and the textual test for existing policy-routing rules. */
module Kernel {
  import opened Text
  import opened Config

  /** One `ip daddr .. meta skuid .. meta mark set ..` rule; an absent match always holds. */
  datatype ChainRule = ChainRule(dest: Option<string>, uid: Option<u32>, mark: u32)

  datatype Nft = NoTable | NoChain | Chain(rules: seq<ChainRule>)

  /** A policy-routing rule: one on a mark, or any other line of `ip rule show`. */
  datatype IpRule = Fwmark(priority: u32, mark: u32, table: u32) | Foreign(priority: u32, line: string)

  datatype Route = Route(gateway: Option<string>, dev: string, src: Option<string>)

  /** The owned nft table, the rules in priority order, and the default route of each table. */
  datatype Kernel = Kernel(nft: Nft, rules: seq<IpRule>, routes: map<u32, Route>)

  datatype Command =
    | AddTable
    | AddChain
    | FlushChain
    | AddRule(rule: ChainRule)
    | DeleteTable
    | ReplaceDefault(table: u32, route: Route)
    | FlushRoutes(table: u32)
    | AddIpRule(added: IpRule)
    | DelIpRule(removed: IpRule)

  /** A new rule goes after the rules of the same or a smaller priority number. */
  function InsertRule(rules: seq<IpRule>, r: IpRule): seq<IpRule> {
    if rules == [] then [r]
    else if r.priority < rules[0].priority then [r] + rules
    else [rules[0]] + InsertRule(rules[1..], r)
  }

  /** Deletion removes the first matching rule only. */
  function RemoveRule(rules: seq<IpRule>, r: IpRule): seq<IpRule> {
    if rules == [] then []
    else if rules[0] == r then rules[1..]
    else [rules[0]] + RemoveRule(rules[1..], r)
  }

  /** The state after a command, or None when the kernel refuses it. Adding an nft table or chain
      that exists is accepted and changes nothing. */
  function Effect(k: Kernel, c: Command): Option<Kernel> {
    match c
    case AddTable => Some(if k.nft.NoTable? then k.(nft := NoChain) else k)
    case AddChain =>
      if k.nft.NoTable? then None else Some(if k.nft.NoChain? then k.(nft := Chain([])) else k)
    case FlushChain => if k.nft.Chain? then Some(k.(nft := Chain([]))) else None
    case AddRule(rule) => if k.nft.Chain? then Some(k.(nft := Chain(k.nft.rules + [rule]))) else None
    case DeleteTable => if k.nft.NoTable? then None else Some(k.(nft := NoTable))
    case ReplaceDefault(table, route) => Some(k.(routes := k.routes[table := route]))
    case FlushRoutes(table) => Some(k.(routes := k.routes - {table}))
    case AddIpRule(r) => Some(k.(rules := InsertRule(k.rules, r)))
    case DelIpRule(r) => if r in k.rules then Some(k.(rules := RemoveRule(k.rules, r))) else None
  }

  // ---------------------------------------------------------------- packets

  /** A locally sent packet: which `ip daddr` operands cover its destination, its user, and which
      foreign rules of the rule list would decide its route. */
  datatype Packet = Packet(inNet: string -> bool, uid: u32, taken: string -> bool)

  predicate Matches(r: ChainRule, p: Packet) {
    (r.dest.Some? ==> p.inNet(r.dest.value)) && (r.uid.Some? ==> r.uid.value == p.uid)
  }

  /** The chain, rule by rule: `mark set` gives no verdict, so the last match wins. */
  function MarkAfter(rules: seq<ChainRule>, p: Packet, mark: u32): u32 {
    if rules == [] then mark
    else MarkAfter(rules[1..], p, if Matches(rules[0], p) then rules[0].mark else mark)
  }

  /** Priority of the main routing table's rule. */
  const MAIN_PRIORITY: u32 := 32766

  /** What the rules before the main table's do with a packet. */
  datatype Way = Via(route: Route) | ByForeign(line: string) | Undecided

  /** The rules in order: a foreign rule may decide the route, and a rule on the packet's mark does if
      its table has a default route. */
  function RouteFor(rules: seq<IpRule>, routes: map<u32, Route>, pkt: Packet, mark: u32): Way {
    if rules == [] || rules[0].priority >= MAIN_PRIORITY then Undecided
    else
      match rules[0]
      case Foreign(_, line) => if pkt.taken(line) then ByForeign(line) else RouteFor(rules[1..], routes, pkt, mark)
      case Fwmark(_, wanted, table) =>
        if wanted == mark && table in routes then Via(routes[table]) else RouteFor(rules[1..], routes, pkt, mark)
  }

  /** No foreign rule of this or a smaller priority number decides the packet's route. */
  ghost predicate Free(rules: seq<IpRule>, pkt: Packet, priority: u32) {
    forall r :: r in rules && r.Foreign? && r.priority <= priority ==> !pkt.taken(r.line)
  }

  /** The mark a packet leaves the chain with; packets enter with mark 0. */
  function MarkOf(k: Kernel, p: Packet): u32 {
    if k.nft.Chain? then MarkAfter(k.nft.rules, p, 0) else 0
  }

  // ---------------------------------------------------------------- rule lists

  ghost predicate Ordered(rules: seq<IpRule>) {
    forall i, j :: 0 <= i < j < |rules| ==> rules[i].priority <= rules[j].priority
  }

  lemma {:induction false} InsertRuleMembers(rules: seq<IpRule>, r: IpRule)
    ensures multiset(InsertRule(rules, r)) == multiset(rules) + multiset{r}
    ensures forall x :: x in InsertRule(rules, r) <==> x in rules || x == r
  {
    if rules != [] {
      assert rules == [rules[0]] + rules[1..];
      if r.priority >= rules[0].priority { InsertRuleMembers(rules[1..], r); }
    }
  }

  lemma {:induction false} InsertRuleOrdered(rules: seq<IpRule>, r: IpRule)
    requires Ordered(rules)
    ensures Ordered(InsertRule(rules, r))
  {
    if rules != [] && r.priority >= rules[0].priority {
      InsertRuleOrdered(rules[1..], r);
      InsertRuleMembers(rules[1..], r);
      var t := InsertRule(rules[1..], r);
      forall j | 0 <= j < |t| ensures rules[0].priority <= t[j].priority {
        assert t[j] in t;
        if t[j] != r { var k :| 0 <= k < |rules[1..]| && rules[1..][k] == t[j]; assert rules[k + 1] == t[j]; }
      }
    }
  }

  /** A new rule goes right behind those of its own and smaller priority numbers. */
  lemma {:induction false} InsertRulePlace(before: seq<IpRule>, behind: seq<IpRule>, r: IpRule)
    requires forall x :: x in before ==> x.priority <= r.priority
    requires forall x :: x in behind ==> x.priority > r.priority
    ensures InsertRule(before + behind, r) == before + [r] + behind
  {
    if before == [] {
      assert before + behind == behind;
    } else {
      assert (before + behind)[1..] == before[1..] + behind;
      InsertRulePlace(before[1..], behind, r);
    }
  }

  lemma {:induction false} RemoveRuleFacts(rules: seq<IpRule>, r: IpRule)
    requires r in rules
    ensures multiset(RemoveRule(rules, r)) == multiset(rules) - multiset{r}
  {
    assert rules == [rules[0]] + rules[1..];
    if rules[0] != r { RemoveRuleFacts(rules[1..], r); }
  }

  /** A mark whose only rule is the given one leads to the default route of the rule's table, for
      packets that no foreign rule decides first. */
  lemma {:induction false} RouteForOwned(rules: seq<IpRule>, routes: map<u32, Route>, pkt: Packet, own: IpRule)
    requires Ordered(rules) && own.Fwmark? && own.priority < MAIN_PRIORITY && own in rules && own.table in routes
    requires forall r :: r in rules && r.Fwmark? && r.mark == own.mark ==> r == own
    requires Free(rules, pkt, own.priority)
    ensures RouteFor(rules, routes, pkt, own.mark) == Via(routes[own.table])
  {
    assert rules == [rules[0]] + rules[1..];
    var i :| 0 <= i < |rules| && rules[i] == own;
    assert rules[0] in rules && rules[0].priority <= rules[i].priority;
    if rules[0] != own { RouteForOwned(rules[1..], routes, pkt, own); }
  }

  /** No rule on the mark comes before the main table's. */
  ghost predicate NoneInTime(rules: seq<IpRule>, mark: u32) {
    forall r :: r in rules && r.Fwmark? && r.mark == mark ==> r.priority >= MAIN_PRIORITY
  }

  /** A mark whose rules, if any, come after the main table's is never routed by one. */
  lemma {:induction false} RouteForLate(rules: seq<IpRule>, routes: map<u32, Route>, pkt: Packet, mark: u32)
    requires NoneInTime(rules, mark)
    ensures !RouteFor(rules, routes, pkt, mark).Via?
  {
    if rules != [] {
      assert rules[0] in rules && forall r :: r in rules[1..] ==> r in rules;
      RouteForLate(rules[1..], routes, pkt, mark);
    }
  }

  // ---------------------------------------------------------------- the textual test

  /** A line of `ip rule show`. */
  function Render(r: IpRule): string {
    match r
    case Fwmark(priority, mark, table) =>
      Dec(priority) + ":\tfrom all fwmark 0x" + Hex(mark) + " lookup " + Dec(table)
    case Foreign(_, line) => line
  }

  predicate LineListed(line: string, mark: u32, table: u32) {
    Contains(line, "fwmark 0x" + Hex(mark)) && Contains(line, "lookup " + Dec(table))
  }

  /** The test of `ensure_fwmark_rule` and `delete_fwmark_rules`: some line has both substrings. */
  predicate RuleListed(rules: seq<IpRule>, mark: u32, table: u32) {
    exists i :: 0 <= i < |rules| && LineListed(Render(rules[i]), mark, table)
  }

  /** A pattern around a character that occurs once in a line is found only around it. */
  lemma ContainsAtPivot(before: string, c: char, after: string, x: string, y: string)
    requires c !in before && c !in after
    ensures Contains(before + [c] + after, x + [c] + y) <==>
      |x| <= |before| && before[|before| - |x|..] == x && y <= after
  {
    var line, pattern := before + [c] + after, x + [c] + y;
    if Contains(line, pattern) {
      var i :| 0 <= i <= |line| - |pattern| && line[i..][..|pattern|] == pattern;
      FoundAtPivot(before, c, after, x, y, i);
    }
    if |x| <= |before| && before[|before| - |x|..] == x && y <= after {
      var i := |before| - |x|;
      assert before == before[..i] + x && after == y + after[|y|..];
      assert line == before[..i] + (pattern + after[|y|..]);
      assert line[i..] == pattern + after[|y|..];
      assert line[i..][..|pattern|] == pattern;
    }
  }

  lemma FoundAtPivot(before: string, c: char, after: string, x: string, y: string, i: nat)
    requires c !in before && c !in after
    requires i + |x| + 1 + |y| <= |before| + 1 + |after|
    requires (before + [c] + after)[i..][..|x| + 1 + |y|] == x + [c] + y
    ensures |x| <= |before| && before[|before| - |x|..] == x && y <= after
  {
    var line, pattern := before + [c] + after, x + [c] + y;
    assert forall k :: 0 <= k < |pattern| ==> line[i + k] == line[i..][..|pattern|][k] == pattern[k];
    assert line[i + |x|] == c;
    assert forall k :: 0 <= k < |before| ==> line[k] == before[k] && before[k] != c;
    assert forall k :: |before| < k < |line| ==> line[k] == after[k - |before| - 1] && line[k] != c;
    assert i + |x| == |before|;
    forall k | 0 <= k < |x| ensures before[i..][k] == x[k] { assert line[i + k] == pattern[k]; }
    forall k | 0 <= k < |y| ensures after[k] == y[k] { assert line[i + (|x| + 1 + k)] == pattern[|x| + 1 + k]; }
  }

  /** A numeral before a blank is a prefix of the text exactly when it is one of the numeral there. */
  lemma NumeralBeforeBlank(h: string, numeral: string, rest: string)
    requires (forall i :: 0 <= i < |h| ==> IsDigit(h[i])) && rest != [] && rest[0] == ' '
    ensures h <= numeral + rest <==> h <= numeral
  {
    assert (numeral + rest)[|numeral|] == ' ' && !IsDigit(' ');
    if h <= numeral + rest {
      assert forall i :: 0 <= i < |h| ==> h[i] == (numeral + rest)[i];
      assert |h| <= |numeral|;
    }
    if h <= numeral { assert h == numeral[..|h|] == (numeral + rest)[..|h|]; }
  }

  lemma PrefixUnder(a: string, x: string, y: string)
    ensures a + x <= a + y <==> x <= y
  {
    if a + x <= a + y {
      assert forall i :: 0 <= i < |x| ==> x[i] == (a + x)[|a| + i] == (a + y)[|a| + i] == y[i];
    }
    if x <= y { assert a + y == a + x + y[|x|..]; }
  }

  /** The test finds a rendered rule exactly when the wanted hexadecimal mark and decimal table are
      both string prefixes of the rule's own. */
  lemma {:induction false} LineListedExact(r: IpRule, mark: u32, table: u32)
    requires r.Fwmark?
    ensures LineListed(Render(r), mark, table) <==> Hex(mark) <= Hex(r.mark) && Dec(table) <= Dec(r.table)
  {
    MarkPartExact(r, mark);
    TablePartExact(r, table);
  }

  lemma AroundW(priority: string, mark: string, table: string)
    ensures priority + ":\tfrom all fwmark 0x" + mark + " lookup " + table ==
      priority + ":\tfrom all f" + ['w'] + ("mark 0x" + (mark + (" lookup " + table)))
  {}

  lemma MarkPartExact(r: IpRule, mark: u32)
    requires r.Fwmark?
    ensures Contains(Render(r), "fwmark 0x" + Hex(mark)) <==> Hex(mark) <= Hex(r.mark)
  {
    var before := Dec(r.priority) + ":\tfrom all f";
    var after := "mark 0x" + (Hex(r.mark) + (" lookup " + Dec(r.table)));
    AroundW(Dec(r.priority), Hex(r.mark), Dec(r.table));
    assert "fwmark 0x" + Hex(mark) == "f" + ['w'] + ("mark 0x" + Hex(mark));
    ContainsAtPivot(before, 'w', after, "f", "mark 0x" + Hex(mark));
    PrefixUnder("mark 0x", Hex(mark), Hex(r.mark) + (" lookup " + Dec(r.table)));
    NumeralBeforeBlank(Hex(mark), Hex(r.mark), " lookup " + Dec(r.table));
  }

  lemma TablePartExact(r: IpRule, table: u32)
    requires r.Fwmark?
    ensures Contains(Render(r), "lookup " + Dec(table)) <==> Dec(table) <= Dec(r.table)
  {
    var before := Dec(r.priority) + ":\tfrom all fwmark 0x" + Hex(r.mark) + " look";
    var after := "p " + Dec(r.table);
    assert Render(r) == before + ['u'] + after;
    assert "lookup " + Dec(table) == "look" + ['u'] + ("p " + Dec(table));
    ContainsAtPivot(before, 'u', after, "look", "p " + Dec(table));
    PrefixUnder("p ", Dec(table), Dec(r.table));
  }

  /** A rule on another mark or table that the test mistakes for the wanted one. */
  predicate Mistaken(r: IpRule, mark: u32, table: u32) {
    LineListed(Render(r), mark, table) && !(r.Fwmark? && r.mark == mark && r.table == table)
  }

  /** The test never misses a present rule, and it reports an absent one exactly when some other
      line is mistaken for it; without such lines it is membership. */
  lemma RuleListedExact(rules: seq<IpRule>, mark: u32, table: u32)
    ensures var present := exists r :: r in rules && r.Fwmark? && r.mark == mark && r.table == table;
      && RuleListed(rules, mark, table) == (present || exists r :: r in rules && Mistaken(r, mark, table))
  {
    forall r | r in rules && r.Fwmark? && r.mark == mark && r.table == table
      ensures LineListed(Render(r), mark, table)
    {
      LineListedExact(r, mark, table);
    }
    if r :| r in rules && LineListed(Render(r), mark, table) {
      var i :| 0 <= i < |rules| && rules[i] == r;
    }
    if RuleListed(rules, mark, table) {
      var i :| 0 <= i < |rules| && LineListed(Render(rules[i]), mark, table);
      assert rules[i] in rules;
    }
  }
}
