/**
  The table of contents of the log variables: a flat list of variables and of
  marks that open and close groups, and the two numberings in use for it.
 */
module LogToc {

  /** The type byte carries flags; a mark has the group flag and, if it opens
      a group, the start flag. */
  datatype Entry = Entry(kind: nat, name: string, address: nat) {
    predicate IsGroup() {
      kind / 0x80 % 2 == 1
    }

    predicate IsStart() {
      kind % 2 == 1
    }

    predicate ByFunction() {
      kind / 0x40 % 2 == 1
    }

    function LogType(): (t: nat)
      ensures t < 0x10
    {
      kind % 0x10
    }
  }

  /** The flags of a variable: its type, whether it is a core variable (0x20), and
      whether it is read by a function (0x40); and those of the marks of a group. */
  lemma FlagsAre(t: nat, core: bool, byFunction: bool, name: string, address: nat)
    requires t < 16
    ensures var e := Entry(t + (if core then 0x20 else 0) + (if byFunction then 0x40 else 0), name, address);
      !e.IsGroup() && e.LogType() == t && (e.ByFunction() <==> byFunction)
    ensures Entry(0x81, name, address).IsGroup() && Entry(0x81, name, address).IsStart()
    ensures Entry(0x80, name, address).IsGroup() && !Entry(0x80, name, address).IsStart()
  {
  }

  type Toc = seq<Entry>

  const INVALID_VAR_ID := 0xffff

  // ---------- Numbering by position among the variables ----------

  /** The positions of the first variables of `toc`, up to entry `n`. */
  function VariablesUpTo(toc: Toc, n: nat): (vs: seq<nat>)
    requires n <= |toc|
    ensures |vs| <= n
    ensures forall k :: 0 <= k < |vs| ==> vs[k] < n
  {
    if n == 0 then []
    else if toc[n - 1].IsGroup() then VariablesUpTo(toc, n - 1)
    else VariablesUpTo(toc, n - 1) + [n - 1]
  }

  function Variables(toc: Toc): seq<nat> {
    VariablesUpTo(toc, |toc|)
  }

  /** The numbering is a bijection in table order: it lists every variable,
      and only variables, and no variable twice. */
  lemma {:induction false} NumberingIsBijection(toc: Toc, n: nat)
    requires n <= |toc|
    ensures var vs := VariablesUpTo(toc, n);
      && (forall j, k :: 0 <= j < k < |vs| ==> vs[j] < vs[k])
      && (forall i :: 0 <= i < n ==> (i in vs <==> !toc[i].IsGroup()))
  {
    if n > 0 {
      NumberingIsBijection(toc, n - 1);
    }
  }

  lemma {:induction false} VariablesPrefix(toc: Toc, i: nat, n: nat)
    requires i <= n <= |toc|
    ensures VariablesUpTo(toc, i) <= VariablesUpTo(toc, n)
  {
    if i < n {
      VariablesPrefix(toc, i, n - 1);
    }
  }

  /** The entry of the variable with number `id`, or -1. */
  function IndexOf(toc: Toc, id: int): int {
    if 0 <= id < |Variables(toc)| then Variables(toc)[id] else -1
  }

  method VariableGetIndex(toc: Toc, id: int) returns (index: int)
    ensures index == IndexOf(toc, id)
  {
    var i, n := 0, 0;
    while i < |toc|
      invariant 0 <= i <= |toc| && n == |VariablesUpTo(toc, i)|
      invariant id < 0 || n <= id
    {
      VariablesPrefix(toc, i + 1, |toc|);
      if !toc[i].IsGroup() {
        if n == id {
          return i;
        }
        n := n + 1;
      }
      i := i + 1;
    }
    return -1;
  }

  method CountVariables(toc: Toc) returns (count: nat)
    ensures count == |Variables(toc)|
  {
    count := 0;
    var i := 0;
    while i < |toc|
      invariant 0 <= i <= |toc| && count == |VariablesUpTo(toc, i)|
    {
      if !toc[i].IsGroup() {
        count := count + 1;
      }
      i := i + 1;
    }
  }

  // ---------- Groups ----------

  /** The name of the group opened last before entry `n`; closing marks are ignored. */
  function LastOpened(toc: Toc, n: nat): string
    requires n <= |toc|
  {
    if n == 0 then ""
    else if toc[n - 1].IsGroup() && toc[n - 1].IsStart() then toc[n - 1].name
    else LastOpened(toc, n - 1)
  }

  /** The name of the group that is open at entry `n`, as reported to clients. */
  function OpenGroup(toc: Toc, n: nat, none: string): string
    requires n <= |toc|
  {
    if n == 0 then none
    else if !toc[n - 1].IsGroup() then OpenGroup(toc, n - 1, none)
    else if toc[n - 1].IsStart() then toc[n - 1].name
    else ""
  }

  /** Entry `n` lies behind an opening mark that is not closed yet. */
  predicate InGroup(toc: Toc, n: nat)
    requires n <= |toc|
  {
    if n == 0 then false
    else if toc[n - 1].IsGroup() then toc[n - 1].IsStart()
    else InGroup(toc, n - 1)
  }

  predicate AnyMark(toc: Toc, n: nat)
    requires n <= |toc|
  {
    n > 0 && (toc[n - 1].IsGroup() || AnyMark(toc, n - 1))
  }

  /** The two ways of naming the group of an entry agree inside a group; outside,
      they agree only if the group opened last has the name that is reported for
      no group: the empty one behind a closing mark, `none` before all marks. */
  lemma {:induction false} GroupNamesAgreeIff(toc: Toc, n: nat, none: string)
    requires n <= |toc|
    ensures OpenGroup(toc, n, none) == LastOpened(toc, n)
       <==> InGroup(toc, n) || LastOpened(toc, n) == (if AnyMark(toc, n) then "" else none)
  {
    if n > 0 && !toc[n - 1].IsGroup() {
      GroupNamesAgreeIff(toc, n - 1, none);
    }
  }

  /** A variable behind the closing mark of a group, for which they differ. */
  lemma GroupNamesDiffer()
    ensures var toc := [Entry(0x81, "pm", 0), Entry(0x80, "stop_pm", 0), Entry(1, "x", 5)];
      !toc[2].IsGroup() && OpenGroup(toc, 2, "plop") == "" && LastOpened(toc, 2) == "pm"
  {
    var toc := [Entry(0x81, "pm", 0), Entry(0x80, "stop_pm", 0), Entry(1, "x", 5)];
    assert toc[1].IsGroup() && !toc[1].IsStart();
    assert toc[0].IsGroup() && toc[0].IsStart();
    assert LastOpened(toc, 1) == "pm";
  }

  datatype Item = Item(group: string, name: string, logType: nat) | OutOfRange

  /** The answer to a request for the variable with number `id`. */
  method GetItem(toc: Toc, id: nat) returns (item: Item)
    ensures item == if IndexOf(toc, id) == -1 then OutOfRange
                    else var i := IndexOf(toc, id);
                         Item(OpenGroup(toc, i, "plop"), toc[i].name, toc[i].LogType())
  {
    var group := "plop";
    var ptr, n := 0, 0;
    while ptr < |toc|
      invariant 0 <= ptr <= |toc| && n == |VariablesUpTo(toc, ptr)| <= id
      invariant group == OpenGroup(toc, ptr, "plop")
    {
      VariablesPrefix(toc, ptr + 1, |toc|);
      if toc[ptr].IsGroup() {
        if toc[ptr].IsStart() {
          group := toc[ptr].name;
        } else {
          group := "";
        }
      } else {
        if n == id {
          break;
        }
        n := n + 1;
      }
      ptr := ptr + 1;
    }
    if ptr < |toc| {
      item := Item(group, toc[ptr].name, toc[ptr].LogType());
    } else {
      item := OutOfRange;
    }
  }

  // ---------- Numbering by table position, with lookup by name ----------

  predicate Named(toc: Toc, i: nat, group: string, name: string)
    requires i < |toc|
  {
    !toc[i].IsGroup() && LastOpened(toc, i) == group && toc[i].name == name
  }

  /** Finds the first variable with these names. */
  method GetVarId(toc: Toc, group: string, name: string) returns (varId: nat)
    requires |toc| <= INVALID_VAR_ID
    ensures varId == 0xffff || varId < |toc|
    ensures varId < |toc| ==> Named(toc, varId, group, name)
    ensures forall i :: 0 <= i < |toc| && Named(toc, i, group, name) ==> varId <= i
  {
    var currGroup := "";
    var i := 0;
    while i < |toc|
      invariant 0 <= i <= |toc| && currGroup == LastOpened(toc, i)
      invariant forall j :: 0 <= j < i ==> !Named(toc, j, group, name)
    {
      if toc[i].IsGroup() {
        if toc[i].IsStart() {
          currGroup := toc[i].name;
        }
      } else if group == currGroup && name == toc[i].name {
        assert Named(toc, i, group, name);
        return i;
      }
      i := i + 1;
    }
    return INVALID_VAR_ID;
  }

  datatype Names = Names(group: string, name: string) | NoNames

  method GetGroupAndName(toc: Toc, varId: nat) returns (names: Names)
    ensures names == if varId >= |toc| then NoNames
                     else if toc[varId].IsGroup() && toc[varId].IsStart()
                     then Names(toc[varId].name, toc[varId].name)
                     else Names(LastOpened(toc, varId), toc[varId].name)
  {
    var currGroup := "";
    names := NoNames;
    var i := 0;
    while i < |toc|
      invariant 0 <= i <= |toc| && currGroup == LastOpened(toc, i)
      invariant names == NoNames && i <= varId
    {
      if toc[i].IsGroup() {
        if toc[i].IsStart() {
          currGroup := toc[i].name;
        }
      }
      if i == varId {
        names := Names(currGroup, toc[i].name);
        return;
      }
      i := i + 1;
    }
  }

  ghost predicate UniqueNames(toc: Toc) {
    forall i, j, group, name ::
      0 <= i < |toc| && 0 <= j < |toc| && Named(toc, i, group, name) && Named(toc, j, group, name) ==> i == j
  }

  /** Looking the names of a found variable up gives the names searched for; and
      looking for the names of a variable finds it, if no two share their names. */
  method LookupRoundTrip(toc: Toc, group: string, name: string, i: nat)
    returns (names: Names, varId: nat)
    requires |toc| <= INVALID_VAR_ID
    requires i < |toc| && !toc[i].IsGroup()
    ensures (exists j :: 0 <= j < |toc| && Named(toc, j, group, name)) ==> names == Names(group, name)
    ensures UniqueNames(toc) ==> varId == i
  {
    var found := GetVarId(toc, group, name);
    names := GetGroupAndName(toc, found);
    var own := GetGroupAndName(toc, i);
    assert Named(toc, i, own.group, own.name);
    varId := GetVarId(toc, own.group, own.name);
  }
}
