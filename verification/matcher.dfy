/** Rule selection (`match_rules`): a firewall rule is kept when every address
    its Source and Destination cells resolve to is a valid network and some
    valid customer subnet overlaps one of them. Rules keep their input order
    and each input row is appended at most once.

    The selection is stated over an `Env` of readers (cells to addresses,
    addresses and customer lines to networks), so that its properties do
    not depend on how text is read; `match_rules` itself is
    `MatchRules(ProgramEnv(v6, groups), rules, customers)`. */
module Matcher {
  import opened Wrappers
  import opened Text
  import opened Network
  import IpNetwork
  import opened Resolver
  import opened Seqs

  /** One row of the Firewall Policy sheet: its Source and Destination cells
      and every other column, which is carried through untouched. */
  datatype Rule = Rule(source: string, destination: string, columns: seq<(string, string)>)

  /** Text to network, `None` standing for `ValueError`. */
  type Reader = string -> Option<Network>

  /** `ip_network(addr, strict=False)` on an address a cell resolved to. */
  function AddressReader(v6: IpNetwork.V6Reader): Reader {
    (a: string) => IpNetwork.Parse(v6, a)
  }

  /** `ip_network(subnet.strip(), strict=False)` on a customer line. */
  function LineReader(v6: IpNetwork.V6Reader): Reader {
    (line: string) => IpNetwork.Parse(v6, Strip(line))
  }

  /** `src_nets + dst_nets`, or `None` when either comprehension raises and
      the rule is skipped. */
  function RuleNetworks(read: Reader, src: seq<string>, dst: seq<string>): Option<seq<Network>> {
    match CollectAll(src, read)
    case None => None
    case Some(s) =>
      match CollectAll(dst, read)
      case None => None
      case Some(d) => Some(s + d)
  }

  /** `any(c.overlaps(n) for n in nets)`. */
  function AnyOverlap(c: Network, nets: seq<Network>): (r: bool)
    ensures r <==> exists i :: 0 <= i < |nets| && Overlaps(c, nets[i])
  {
    if nets == [] then false
    else if Overlaps(c, nets[0]) then true
    else
      var r := AnyOverlap(c, nets[1..]);
      assert r ==> exists i :: 0 <= i < |nets| && Overlaps(c, nets[i]) by {
        if r {
          var i :| 0 <= i < |nets[1..]| && Overlaps(c, nets[1..][i]);
          assert nets[i + 1] == nets[1..][i];
        }
      }
      assert (exists i :: 0 <= i < |nets| && Overlaps(c, nets[i])) ==> r by {
        if exists i :: 0 <= i < |nets| && Overlaps(c, nets[i]) {
          var i :| 0 <= i < |nets| && Overlaps(c, nets[i]);
          assert i > 0 && nets[1..][i - 1] == nets[i];
        }
      }
      r
  }

  /** The loop over customer subnets: each line is read as a network; a line
      that does not read is skipped, and the first line whose network
      overlaps one of `nets` ends the loop with a match. */
  function CustomerHit(readLine: Reader, nets: seq<Network>, customers: seq<string>): bool {
    if customers == [] then false
    else
      match readLine(customers[0])
      case Some(c) => AnyOverlap(c, nets) || CustomerHit(readLine, nets, customers[1..])
      case None => CustomerHit(readLine, nets, customers[1..])
  }

  /** The body of the rule loop: whether a rule with resolved addresses
      `src` and `dst` is appended. */
  predicate Hits(read: Reader, readLine: Reader, src: seq<string>, dst: seq<string>, customers: seq<string>) {
    match RuleNetworks(read, src, dst)
    case None => false
    case Some(nets) => CustomerHit(readLine, nets, customers)
  }

  /** How `match_rules` turns text into networks and addresses: `read` for
      a resolved address, `readLine` for a customer line, `resolve` for a
      Source or Destination cell. */
  datatype Env = Env(read: Reader, readLine: Reader, resolve: string -> seq<string>)

  /** The program's own readers: `ip_network(..., strict=False)`, applied to
      the stripped line for customer input, and
      `resolve_address_group_field(cell, groups)` for cells. */
  function ProgramEnv(v6: IpNetwork.V6Reader, groups: seq<Group>): Env {
    Env(AddressReader(v6), LineReader(v6), (cell: string) => Resolve(cell, groups))
  }

  /** Under the program's readers a customer line is read as its stripped
      text would be read as an address. */
  lemma ProgramEnvStripsLines(v6: IpNetwork.V6Reader, groups: seq<Group>, line: string)
    ensures ProgramEnv(v6, groups).readLine(line) == ProgramEnv(v6, groups).read(Strip(line))
  {
  }

  /** Under the program's readers every address a rule resolves to is a
      trimmed, comma-free, non-empty name: stripping it, as the customer
      loop strips its lines, changes nothing, so with
      `ProgramEnvStripsLines` both readers agree on it. */
  lemma ProgramEnvAddressesStripped(v6: IpNetwork.V6Reader, groups: seq<Group>, rule: Rule, a: string)
    requires a in Addresses(ProgramEnv(v6, groups), rule)
    ensures IsToken(a) && Strip(a) == a
  {
    var src, dst := Resolve(rule.source, groups), Resolve(rule.destination, groups);
    assert a in src + dst;
    if a in src {
      ResolvedIsToken(rule.source, groups, a);
    } else {
      ResolvedIsToken(rule.destination, groups, a);
    }
    StripTrimmed(a);
  }

  /** The addresses a rule's cells resolve to, Source first. */
  function Addresses(env: Env, rule: Rule): seq<string> {
    env.resolve(rule.source) + env.resolve(rule.destination)
  }

  /** Whether `match_rules` appends `rule`. */
  predicate Matches(env: Env, customers: seq<string>, rule: Rule) {
    Hits(env.read, env.readLine, env.resolve(rule.source), env.resolve(rule.destination), customers)
  }

  /** The test `match_rules` applies to each rule. */
  function Keep(env: Env, customers: seq<string>): Rule -> bool {
    (rule: Rule) => Matches(env, customers, rule)
  }

  /** `match_rules(rules, groups, customers)` with the readers of `env`: the
      matching rules in input order, each row as often as it occurs in the
      input. */
  function MatchRules(env: Env, rules: seq<Rule>, customers: seq<string>): (r: seq<Rule>)
    ensures |r| <= |rules|
  {
    Filter(Keep(env, customers), rules)
  }

  /** The inner loop of `match_rules` as written: customer lines in order,
      `continue` on a line that does not read, `break` at the first hit. */
  method ScanCustomers(readLine: Reader, nets: seq<Network>, customers: seq<string>) returns (hit: bool)
    ensures hit == CustomerHit(readLine, nets, customers)
  {
    hit := false;
    var j := 0;
    while j < |customers| && !hit
      invariant 0 <= j <= |customers|
      invariant CustomerHit(readLine, nets, customers) == (hit || CustomerHit(readLine, nets, customers[j..]))
    {
      assert customers[j..][1..] == customers[j + 1..];
      var c := readLine(customers[j]);
      if c.Some? && AnyOverlap(c.value, nets) {
        hit := true;
      }
      j := j + 1;
    }
  }

  /** The outer loop of `match_rules` as written: rules in order, both cells
      resolved, a rule with an unreadable address skipped, a hit appended. */
  method SelectRules(env: Env, rules: seq<Rule>, customers: seq<string>) returns (matched: seq<Rule>)
    ensures matched == MatchRules(env, rules, customers)
  {
    var keep := Keep(env, customers);
    matched := [];
    var k := 0;
    while k < |rules|
      invariant 0 <= k <= |rules|
      invariant matched == Filter(keep, rules[..k])
    {
      var rule := rules[k];
      FilterSnoc(keep, rules[..k], rule);
      assert rules[..k + 1] == rules[..k] + [rule];
      var src := env.resolve(rule.source);
      var dst := env.resolve(rule.destination);
      var nets := RuleNetworks(env.read, src, dst);
      if nets.Some? {
        var hit := ScanCustomers(env.readLine, nets.value, customers);
        if hit {
          matched := matched + [rule];
        }
      }
      k := k + 1;
    }
    assert rules[..|rules|] == rules;
  }

  // ----- properties of the customer loop -----

  /** `CustomerHit` is the existential it stands for: some customer line
      reads as a network that overlaps one of `nets`. */
  lemma {:induction false} CustomerHitIff(readLine: Reader, nets: seq<Network>, customers: seq<string>)
    ensures CustomerHit(readLine, nets, customers) <==>
            exists j, i :: 0 <= j < |customers| && 0 <= i < |nets| && HitBy(readLine, customers[j], nets[i])
    decreases |customers|
  {
    if customers != [] {
      CustomerHitIff(readLine, nets, customers[1..]);
      var tail := customers[1..];
      if exists j, i :: 0 <= j < |tail| && 0 <= i < |nets| && HitBy(readLine, tail[j], nets[i]) {
        var j, i :| 0 <= j < |tail| && 0 <= i < |nets| && HitBy(readLine, tail[j], nets[i]);
        assert customers[j + 1] == tail[j];
      }
      if exists j, i :: 0 <= j < |customers| && 0 <= i < |nets| && HitBy(readLine, customers[j], nets[i]) {
        var j, i :| 0 <= j < |customers| && 0 <= i < |nets| && HitBy(readLine, customers[j], nets[i]);
        if j > 0 {
          assert tail[j - 1] == customers[j];
        }
      }
    }
  }

  /** Customer line `line` reads as a network that overlaps `n`. */
  predicate HitBy(readLine: Reader, line: string, n: Network) {
    match readLine(line)
    case None => false
    case Some(c) => Overlaps(c, n)
  }

  /** A customer line that does not read as a network is skipped: removing
      it changes nothing. */
  lemma {:induction false} UnreadableLineIgnored(readLine: Reader, nets: seq<Network>, pre: seq<string>, bad: string, post: seq<string>)
    requires readLine(bad).None?
    ensures CustomerHit(readLine, nets, pre + [bad] + post) == CustomerHit(readLine, nets, pre + post)
    decreases |pre|
  {
    if pre == [] {
      assert pre + [bad] + post == [bad] + post;
      assert ([bad] + post)[1..] == post;
      assert pre + post == post;
    } else {
      assert (pre + [bad] + post)[1..] == pre[1..] + [bad] + post;
      assert (pre + post)[1..] == pre[1..] + post;
      assert (pre + [bad] + post)[0] == pre[0] == (pre + post)[0];
      UnreadableLineIgnored(readLine, nets, pre[1..], bad, post);
    }
  }

  /** The verdict over a list of lines is the disjunction of the verdicts
      over its parts: stopping at the first hit loses nothing, and the
      order of the lines does not matter. */
  lemma {:induction false} CustomerHitConcat(readLine: Reader, nets: seq<Network>, a: seq<string>, b: seq<string>)
    ensures CustomerHit(readLine, nets, a + b) == (CustomerHit(readLine, nets, a) || CustomerHit(readLine, nets, b))
    decreases |a|
  {
    if a == [] {
      assert a + b == b;
    } else {
      assert (a + b)[0] == a[0];
      assert (a + b)[1..] == a[1..] + b;
      CustomerHitConcat(readLine, nets, a[1..], b);
    }
  }

  // ----- properties of one rule -----

  /** The rule's networks are its addresses, source first, read one by one;
      one unreadable address anywhere means there are none. */
  lemma RuleNetworksAll(read: Reader, src: seq<string>, dst: seq<string>)
    ensures RuleNetworks(read, src, dst) == CollectAll(src + dst, read)
  {
    var all := src + dst;
    var a, s, d := CollectAll(all, read), CollectAll(src, read), CollectAll(dst, read);
    if s.Some? && d.Some? {
      forall i | 0 <= i < |all| ensures read(all[i]) == Some((s.value + d.value)[i]) {
        if i >= |src| {
          assert all[i] == dst[i - |src|];
        } else {
          assert all[i] == src[i];
        }
      }
      assert a.Some?;
      assert a.value == s.value + d.value;
    } else if s.None? {
      var i :| 0 <= i < |src| && read(src[i]).None?;
      assert all[i] == src[i];
    } else {
      var i :| 0 <= i < |dst| && read(dst[i]).None?;
      assert all[|src| + i] == dst[i];
    }
  }

  /** What a match means, stated without the loops: every address the rule's
      cells resolve to reads as a network, and some customer line reads as a
      network that overlaps one of them. */
  predicate Relevant(env: Env, customers: seq<string>, rule: Rule) {
    var addrs := Addresses(env, rule);
    && (forall i :: 0 <= i < |addrs| ==> env.read(addrs[i]).Some?)
    && exists j, i :: 0 <= j < |customers| && 0 <= i < |addrs| &&
         HitBy(env.readLine, customers[j], env.read(addrs[i]).value)
  }

  /** A rule with resolved addresses `src` and `dst` is appended exactly
      when every address reads and some customer line overlaps some
      address's network. */
  lemma HitsIff(read: Reader, readLine: Reader, src: seq<string>, dst: seq<string>, customers: seq<string>)
    ensures Hits(read, readLine, src, dst, customers) <==>
            && (forall i :: 0 <= i < |src + dst| ==> read((src + dst)[i]).Some?)
            && exists j, i :: 0 <= j < |customers| && 0 <= i < |src + dst| &&
                 HitBy(readLine, customers[j], read((src + dst)[i]).value)
  {
    RuleNetworksAll(read, src, dst);
    var nets := CollectAll(src + dst, read);
    if nets.Some? {
      CustomerHitIff(readLine, nets.value, customers);
    }
  }

  lemma MatchesIffRelevant(env: Env, customers: seq<string>, rule: Rule)
    ensures Matches(env, customers, rule) <==> Relevant(env, customers, rule)
  {
    var src, dst := env.resolve(rule.source), env.resolve(rule.destination);
    HitsIff(env.read, env.readLine, src, dst, customers);
    assert Addresses(env, rule) == src + dst;
  }

  /** One address that does not read as a network removes the rule, whatever
      the customer lines are. */
  lemma UnreadableAddressDropsRule(env: Env, customers: seq<string>, rule: Rule, a: string)
    requires a in Addresses(env, rule) && env.read(a).None?
    ensures !Matches(env, customers, rule)
  {
    RuleNetworksAll(env.read, env.resolve(rule.source), env.resolve(rule.destination));
    var addrs := Addresses(env, rule);
    var i :| 0 <= i < |addrs| && addrs[i] == a;
  }

  /** A rule whose cells resolve to no address at all never matches: there
      is nothing for a customer subnet to overlap. */
  lemma NoAddressesNoMatch(env: Env, customers: seq<string>, rule: Rule)
    requires Addresses(env, rule) == []
    ensures !Matches(env, customers, rule)
  {
    MatchesIffRelevant(env, customers, rule);
  }

  // ----- properties of the whole selection -----

  /** Without customer lines nothing matches. */
  lemma NoCustomersNoMatch(env: Env, rules: seq<Rule>)
    ensures MatchRules(env, rules, []) == []
  {
    var keep := Keep(env, []);
    forall i | 0 <= i < |rules| ensures !keep(rules[i]) {
    }
    FilterNone(keep, rules);
  }

  /** A customer line that does not read as a network changes no verdict. */
  lemma UnreadableCustomerLineIgnored(env: Env, rules: seq<Rule>, pre: seq<string>, bad: string, post: seq<string>)
    requires env.readLine(bad).None?
    ensures MatchRules(env, rules, pre + [bad] + post) == MatchRules(env, rules, pre + post)
  {
    forall i | 0 <= i < |rules|
      ensures Keep(env, pre + [bad] + post)(rules[i]) == Keep(env, pre + post)(rules[i])
    {
      var rule := rules[i];
      var nets := RuleNetworks(env.read, env.resolve(rule.source), env.resolve(rule.destination));
      if nets.Some? {
        UnreadableLineIgnored(env.readLine, nets.value, pre, bad, post);
      }
    }
    FilterAgree(Keep(env, pre + [bad] + post), Keep(env, pre + post), rules);
  }

  /** The output keeps the input order: selecting from two blocks of rules
      is selecting from each block in turn. */
  lemma MatchRulesConcat(env: Env, a: seq<Rule>, b: seq<Rule>, customers: seq<string>)
    ensures MatchRules(env, a + b, customers) == MatchRules(env, a, customers) + MatchRules(env, b, customers)
  {
    FilterConcat(Keep(env, customers), a, b);
  }

  /** The output is the input with the non-matching rows deleted. */
  lemma MatchRulesSubsequence(env: Env, rules: seq<Rule>, customers: seq<string>)
    ensures Subsequence(MatchRules(env, rules, customers), rules)
  {
    FilterSubsequence(Keep(env, customers), rules);
  }

  /** A row is in the output exactly when it is in the input and matches. */
  lemma MatchRulesMembers(env: Env, rules: seq<Rule>, customers: seq<string>, x: Rule)
    ensures x in MatchRules(env, rules, customers) <==> x in rules && Matches(env, customers, x)
  {
    FilterMembers(Keep(env, customers), rules, x);
  }

  /** A matching row appears as often as in the input (the `break` appends
      it once per occurrence); a non-matching row never appears. */
  lemma MatchRulesCount(env: Env, rules: seq<Rule>, customers: seq<string>, x: Rule)
    ensures multiset(MatchRules(env, rules, customers))[x]
            == if Matches(env, customers, x) then multiset(rules)[x] else 0
  {
    FilterCount(Keep(env, customers), rules, x);
  }

  /** Running the selection on its own output changes nothing. */
  lemma MatchRulesIdempotent(env: Env, rules: seq<Rule>, customers: seq<string>)
    ensures MatchRules(env, MatchRules(env, rules, customers), customers) == MatchRules(env, rules, customers)
  {
    FilterIdempotent(Keep(env, customers), rules);
  }
}
