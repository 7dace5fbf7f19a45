/** Option tables: what `struct argp_option` holds, and how the parser looks options up. */
module ArgpTable {

  import opened Wrappers

  /** One option entry; the entry that ends a list is not part of it. */
  datatype Opt = Opt(
    name: Option<string>,
    key: int,
    hasArg: bool,
    argOptional: bool,
    hidden: bool,
    isAlias: bool,
    isDoc: bool)

  /** An option together with the number of the group it is dispatched to. */
  datatype Entry = Entry(group: nat, opt: Opt)

  /** `isprint` in the C locale. */
  predicate Printable(key: int) {
    32 <= key < 127
  }

  /** `__option_is_short`. */
  predicate IsShort(opt: Opt) {
    !opt.isDoc && Printable(opt.key)
  }

  /** `find_short_option`: the first entry with the key, whatever its flags say. */
  function FindShort(table: seq<Entry>, key: int): (r: Option<nat>)
    ensures r.Some? ==> r.value < |table| && table[r.value].opt.key == key
    ensures r.Some? ==> forall i :: 0 <= i < r.value ==> table[i].opt.key != key
    ensures r.None? ==> forall e <- table :: e.opt.key != key
  {
    if table == [] then None
    else if table[0].opt.key == key then Some(0)
    else
      var r := FindShort(table[1..], key);
      if r.None? then None else Some(r.value + 1)
  }

  datatype Match = Exact | Partial | NoMatch

  /** The part of a long option argument ahead of its '='. */
  function NamePart(arg: string): (r: string)
    ensures r <= arg && '=' !in r
    ensures r == arg || arg[|r|] == '='
  {
    if arg == "" || arg[0] == '=' then "" else [arg[0]] + NamePart(arg[1..])
  }

  /** `match_option`: `arg` ends at its '=', if it has one. */
  function MatchOption(arg: string, name: string): (r: Match)
    ensures r == Exact <==> NamePart(arg) == name
    ensures r == Partial <==> NamePart(arg) < name
  {
    if arg == "" || arg[0] == '=' then
      if name == "" then Exact else Partial
    else if name == "" || arg[0] != name[0] then
      NoMatch
    else
      var r := MatchOption(arg[1..], name[1..]);
      assert name == [name[0]] + name[1..];
      r
  }

  function MatchEntry(arg: string, e: Entry): Match {
    if e.opt.name.None? then NoMatch else MatchOption(arg, e.opt.name.value)
  }

  /**
   The scan of `find_long_option` from entry `i`, with the number of partial matches so far
   and the last of them.
   */
  function FindLongFrom(table: seq<Entry>, arg: string, i: nat, partials: nat, last: nat): (r: Option<nat>)
    requires i <= |table| && (partials > 0 ==> last < |table|)
    ensures r.Some? ==> r.value < |table|
    decreases |table| - i
  {
    if i == |table| then
      if partials == 1 then Some(last) else None
    else match MatchEntry(arg, table[i])
      case NoMatch => FindLongFrom(table, arg, i + 1, partials, last)
      case Partial => FindLongFrom(table, arg, i + 1, partials + 1, i)
      case Exact => Some(i)
  }

  function FindLong(table: seq<Entry>, arg: string): (r: Option<nat>)
    ensures r.Some? ==> r.value < |table|
  {
    FindLongFrom(table, arg, 0, 0, 0)
  }

  lemma {:induction false} FindLongFromMeans(table: seq<Entry>, arg: string, i: nat, partials: nat, last: nat)
    requires i <= |table| && (partials > 0 ==> last < i)
    requires forall j :: 0 <= j < i ==> MatchEntry(arg, table[j]) != Exact
    requires partials == 0 <==> forall j :: 0 <= j < i ==> MatchEntry(arg, table[j]) != Partial
    requires partials > 0 ==> MatchEntry(arg, table[last]) == Partial
    requires partials == 1 ==> forall j :: 0 <= j < i && j != last ==> MatchEntry(arg, table[j]) != Partial
    requires partials > 1 ==> exists j :: 0 <= j < last && MatchEntry(arg, table[j]) == Partial
    ensures LongAnswer(table, arg, FindLongFrom(table, arg, i, partials, last))
    decreases |table| - i
  {
    if i < |table| {
      match MatchEntry(arg, table[i])
      case NoMatch => FindLongFromMeans(table, arg, i + 1, partials, last);
      case Partial => FindLongFromMeans(table, arg, i + 1, partials + 1, i);
      case Exact =>
    }
  }

  /** The first exact match, or else the only partial one. */
  ghost predicate LongAnswer(table: seq<Entry>, arg: string, r: Option<nat>) {
    match r
    case Some(k) =>
      && k < |table|
      && (|| (MatchEntry(arg, table[k]) == Exact && forall j :: 0 <= j < k ==> MatchEntry(arg, table[j]) != Exact)
          || (&& MatchEntry(arg, table[k]) == Partial
              && forall j :: 0 <= j < |table| && j != k ==> MatchEntry(arg, table[j]) == NoMatch))
    case None =>
      && (forall j :: 0 <= j < |table| ==> MatchEntry(arg, table[j]) != Exact)
      && ((forall j :: 0 <= j < |table| ==> MatchEntry(arg, table[j]) == NoMatch)
          || exists j, k :: 0 <= j < k < |table| && MatchEntry(arg, table[j]) == Partial == MatchEntry(arg, table[k]))
  }

  /** An exact name always wins; an abbreviation is taken only if nothing else fits it. */
  lemma FindLongMeans(table: seq<Entry>, arg: string)
    ensures LongAnswer(table, arg, FindLong(table, arg))
  {
    FindLongFromMeans(table, arg, 0, 0, 0);
  }
}
