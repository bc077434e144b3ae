/** Address-group expansion (`resolve_address_group_field`): a rule's Source
    or Destination cell is a comma-separated list of names; each name that
    labels a row of the Address Group sheet is replaced by that row's
    members, and every other name is kept as a literal address. */
module Resolver {
  import opened Wrappers
  import opened Text

  /** One row of the Address Group sheet: its `Group Name` cell and its
      comma-separated `Members` cell, both as text. */
  datatype Group = Group(name: string, members: string)

  /** No row of `groups` is called `name`. */
  predicate Unknown(groups: seq<Group>, name: string) {
    forall i :: 0 <= i < |groups| ==> groups[i].name != name
  }

  /** Row `i` is the first row called `name`. */
  predicate FirstRow(groups: seq<Group>, name: string, i: nat) {
    && i < |groups|
    && groups[i].name == name
    && forall j :: 0 <= j < i ==> groups[j].name != name
  }

  /** `matched.iloc[0]['Members']`: the members of the first row whose name
      equals `name` exactly, or `None` when the selection is empty. */
  function Lookup(groups: seq<Group>, name: string): (r: Option<string>)
    ensures r.None? <==> Unknown(groups, name)
  {
    if groups == [] then None
    else if groups[0].name == name then Some(groups[0].members)
    else
      var r := Lookup(groups[1..], name);
      assert r.None? ==> Unknown(groups, name) by {
        if r.None? {
          forall i | 0 <= i < |groups| ensures groups[i].name != name {
            if i > 0 { assert groups[1..][i - 1] == groups[i]; }
          }
        }
      }
      r
  }

  /** What `Lookup` finds is the members cell of the first row so named:
      later rows with the same name are never read. */
  lemma {:induction false} LookupFirst(groups: seq<Group>, name: string, i: nat)
    requires FirstRow(groups, name, i)
    ensures Lookup(groups, name) == Some(groups[i].members)
    decreases i
  {
    if i > 0 {
      assert groups[0].name != name;
      var tail := groups[1..];
      assert FirstRow(tail, name, i - 1) by {
        forall j | 0 <= j < i - 1 ensures tail[j].name != name {
          assert tail[j] == groups[j + 1];
        }
      }
      LookupFirst(tail, name, i - 1);
    }
  }

  /** Whenever `Lookup` finds something, some row is the first one so named. */
  lemma {:induction false} LookupSound(groups: seq<Group>, name: string)
    requires Lookup(groups, name).Some?
    ensures exists i: nat :: FirstRow(groups, name, i) && groups[i].members == Lookup(groups, name).value
    decreases |groups|
  {
    if groups[0].name == name {
      assert FirstRow(groups, name, 0);
    } else {
      var tail := groups[1..];
      LookupSound(tail, name);
      var i: nat :| FirstRow(tail, name, i) && tail[i].members == Lookup(tail, name).value;
      assert groups[i + 1] == tail[i];
      assert FirstRow(groups, name, i + 1) by {
        forall j | 0 <= j < i + 1 ensures groups[j].name != name {
          if j > 0 { assert groups[j] == tail[j - 1]; }
        }
      }
    }
  }

  /** One name expanded: a group's member tokens, or the name itself. */
  function Expand(groups: seq<Group>, name: string): (r: seq<string>)
    requires IsToken(name)
    ensures forall i :: 0 <= i < |r| ==> IsToken(r[i])
  {
    match Lookup(groups, name)
    case None => [name]
    case Some(m) => Tokens(m)
  }

  /** The names expanded one after the other, results concatenated in order. */
  function ExpandAll(groups: seq<Group>, names: seq<string>): (r: seq<string>)
    requires forall i :: 0 <= i < |names| ==> IsToken(names[i])
    ensures forall i :: 0 <= i < |r| ==> IsToken(r[i])
  {
    if names == [] then []
    else Expand(groups, names[0]) + ExpandAll(groups, names[1..])
  }

  /** `resolve_address_group_field(field, groups)`. Every address it yields is
      non-empty, has no surrounding whitespace and holds no comma. */
  function Resolve(field: string, groups: seq<Group>): (r: seq<string>)
    ensures forall i :: 0 <= i < |r| ==> IsToken(r[i])
  {
    ExpandAll(groups, Tokens(field))
  }

  // ----- properties -----

  /** Every resolved address is a token: non-empty, trimmed, comma-free. */
  lemma ResolvedIsToken(field: string, groups: seq<Group>, a: string)
    requires a in Resolve(field, groups)
    ensures IsToken(a)
  {
    var r := Resolve(field, groups);
    var i :| 0 <= i < |r| && r[i] == a;
  }

  /** A blank cell (nothing but whitespace and commas) resolves to nothing. */
  lemma BlankFieldResolvesToNothing(field: string, groups: seq<Group>)
    requires forall i :: 0 <= i < |field| ==> IsSpace(field[i]) || field[i] == ','
    ensures Resolve(field, groups) == []
  {
    TokensEmptyIff(field);
  }

  lemma {:induction false} ExpandAllUnknown(groups: seq<Group>, names: seq<string>)
    requires forall i :: 0 <= i < |names| ==> IsToken(names[i]) && Unknown(groups, names[i])
    ensures ExpandAll(groups, names) == names
    decreases |names|
  {
    if names != [] {
      ExpandAllUnknown(groups, names[1..]);
      assert [names[0]] + names[1..] == names;
    }
  }

  /** With an empty Address Group sheet a cell resolves to its own tokens:
      the split, strip and drop-empty pass alone. */
  lemma EmptySheetGivesTokens(field: string)
    ensures Resolve(field, []) == Tokens(field)
  {
    ExpandAllUnknown([], Tokens(field));
  }

  /** A name no group carries is passed through unchanged as a literal. */
  lemma UnknownNamePassesThrough(groups: seq<Group>, name: string)
    requires IsToken(name) && Unknown(groups, name)
    ensures Resolve(name, groups) == [name]
  {
    assert [] + name + [] == name;
    StripOfPadded([], name, []);
    SplitNoSeparator(name, ',');
    assert Tokens(name) == [name];
    assert ExpandAll(groups, [name]) == Expand(groups, name) + [];
  }

  /** A group name expands to the members of the first row so named, and
      the members are taken as they stand: a member that is itself a group
      name is not expanded again. */
  lemma GroupNameExpands(groups: seq<Group>, name: string, i: nat)
    requires IsToken(name) && FirstRow(groups, name, i)
    ensures Resolve(name, groups) == Tokens(groups[i].members)
  {
    LookupFirst(groups, name, i);
    assert [] + name + [] == name;
    StripOfPadded([], name, []);
    SplitNoSeparator(name, ',');
    assert Tokens(name) == [name];
    assert ExpandAll(groups, [name]) == Expand(groups, name) + [];
  }

  /** A group row whose name has whitespace at either end, or holds a comma,
      can never be selected: the names looked up are stripped tokens. */
  lemma UntokenNameNeverSelected(field: string, groups: seq<Group>, i: nat, t: string)
    requires i < |groups| && !IsToken(groups[i].name)
    requires t in Tokens(field)
    ensures !FirstRow(groups, t, i)
  {
  }

  lemma {:induction false} ExpandAllConcat(groups: seq<Group>, a: seq<string>, b: seq<string>)
    requires forall i :: 0 <= i < |a| ==> IsToken(a[i])
    requires forall i :: 0 <= i < |b| ==> IsToken(b[i])
    ensures ExpandAll(groups, a + b) == ExpandAll(groups, a) + ExpandAll(groups, b)
    decreases |a|
  {
    if a == [] {
      assert a + b == b;
    } else {
      assert (a + b)[0] == a[0];
      assert (a + b)[1..] == a[1..] + b;
      ExpandAllConcat(groups, a[1..], b);
    }
  }

  /** Resolution works name by name, left to right: resolving two cells
      joined by a comma yields the first cell's addresses followed by the
      second's. */
  lemma ResolveConcat(a: string, b: string, groups: seq<Group>)
    ensures Resolve(a + [','] + b, groups) == Resolve(a, groups) + Resolve(b, groups)
  {
    TokensConcat(a, b);
    ExpandAllConcat(groups, Tokens(a), Tokens(b));
  }

  /** Where each resolved address comes from: either a token of the cell
      that names no group, or a member token of the first row named by a
      token of the cell. */
  lemma {:induction false} ExpandAllMembers(groups: seq<Group>, names: seq<string>, t: string)
    requires forall i :: 0 <= i < |names| ==> IsToken(names[i])
    ensures t in ExpandAll(groups, names) <==>
            exists i :: 0 <= i < |names| && Origin(groups, names[i], t)
    decreases |names|
  {
    if names != [] {
      ExpandAllMembers(groups, names[1..], t);
      var head := Expand(groups, names[0]);
      assert ExpandAll(groups, names) == head + ExpandAll(groups, names[1..]);
      assert t in head <==> Origin(groups, names[0], t);
      if exists i :: 0 <= i < |names[1..]| && Origin(groups, names[1..][i], t) {
        var i :| 0 <= i < |names[1..]| && Origin(groups, names[1..][i], t);
        assert names[i + 1] == names[1..][i];
      }
      if exists i :: 0 <= i < |names| && Origin(groups, names[i], t) {
        var i :| 0 <= i < |names| && Origin(groups, names[i], t);
        if i > 0 {
          assert names[1..][i - 1] == names[i];
        }
      }
    }
  }

  /** `t` is what `name` contributes: the name itself when no group carries
      it, otherwise one of the first such group's member tokens. */
  predicate Origin(groups: seq<Group>, name: string, t: string) {
    match Lookup(groups, name)
    case None => t == name
    case Some(m) => t in Tokens(m)
  }

  lemma ResolveMembers(field: string, groups: seq<Group>, t: string)
    ensures t in Resolve(field, groups) <==>
            exists name :: name in Tokens(field) && Origin(groups, name, t)
  {
    var names := Tokens(field);
    ExpandAllMembers(groups, names, t);
    if exists i :: 0 <= i < |names| && Origin(groups, names[i], t) {
      var i :| 0 <= i < |names| && Origin(groups, names[i], t);
      assert names[i] in names;
    }
  }
}
