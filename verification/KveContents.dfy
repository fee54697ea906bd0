/**
  What a chain of records means: the live items in table order, the map they
  form, and the memory that map needs whatever its layout.
 */
module KveContents {
  import opened Bytes
  import opened KveFormat

  type Value = seq<byte>
  type Contents = map<seq<byte>, Value>

  function Live(rs: seq<Record>): seq<Record> {
    if rs == [] then []
    else if rs[0].IsHole() then Live(rs[1..])
    else [rs[0]] + Live(rs[1..])
  }

  /** How many of the first `i` records are items. */
  function ItemsBefore(rs: seq<Record>, i: nat): nat
    requires i <= |rs|
  {
    if i == 0 then 0 else ItemsBefore(rs, i - 1) + if rs[i - 1].keyLength == 0 then 0 else 1
  }

  /** The live records are the items, each in its place among them. */
  lemma {:induction false} LiveInOrder(rs: seq<Record>, i: nat)
    requires i <= |rs|
    ensures |Live(rs[..i])| == ItemsBefore(rs, i) && Live(rs[..i]) <= Live(rs)
    ensures i < |rs| && rs[i].keyLength != 0 ==>
      ItemsBefore(rs, i) < |Live(rs)| && Live(rs)[ItemsBefore(rs, i)] == rs[i]
  {
    LiveCount(rs, i);
    assert rs == rs[..i] + rs[i..];
    LiveConcat(rs[..i], rs[i..]);
    if i < |rs| {
      assert Live(rs)[|Live(rs[..i])|..] == Live(rs[i..]);
    }
  }

  lemma {:induction false} LiveCount(rs: seq<Record>, i: nat)
    requires i <= |rs|
    ensures |Live(rs[..i])| == ItemsBefore(rs, i)
  {
    if i > 0 {
      LiveCount(rs, i - 1);
      assert rs[..i] == rs[..i - 1] + [rs[i - 1]];
      LiveConcat(rs[..i - 1], [rs[i - 1]]);
    }
  }

  ghost predicate NoHoles(rs: seq<Record>) {
    forall i :: 0 <= i < |rs| ==> !rs[i].IsHole()
  }

  ghost predicate WellFormed(rs: seq<Record>) {
    forall i :: 0 <= i < |rs| ==> rs[i].WellFormed()
  }

  /** The map of the live items; a search finds the first of equal keys. */
  function ContentsOf(rs: seq<Record>): Contents {
    if rs == [] then map[]
    else if rs[0].IsHole() then ContentsOf(rs[1..])
    else ContentsOf(rs[1..])[rs[0].Key() := rs[0].Value()]
  }

  ghost predicate UniqueKeys(rs: seq<Record>) {
    rs != [] ==>
      && UniqueKeys(rs[1..])
      && (!rs[0].IsHole() ==> rs[0].Key() !in ContentsOf(rs[1..]))
  }

  /** The keys lie inside their records, are C strings and are unique. */
  ghost predicate GoodRecords(rs: seq<Record>) {
    && WellFormed(rs) && UniqueKeys(rs)
    && forall k :: k in ContentsOf(rs) ==> IsKey(k)
  }

  ghost predicate GoodTable(b: seq<byte>, rs: seq<Record>) {
    IsTable(b, rs) && GoodRecords(rs)
  }

  /** Bytes that an item occupies. */
  function Cost(key: seq<byte>, value: Value): nat {
    HEADER_SIZE + |key| + |value|
  }

  /** Bytes that the items of `m` occupy together. */
  ghost function Used(m: Contents): nat
    decreases |m|
  {
    if m == map[] then 0
    else
      var k :| k in m;
      Cost(k, m[k]) + Used(m - {k})
  }

  lemma {:induction false} UsedSplit(m: Contents, k: seq<byte>)
    requires k in m
    ensures Used(m) == Cost(k, m[k]) + Used(m - {k})
    decreases |m|
  {
    var j :| j in m && Used(m) == Cost(j, m[j]) + Used(m - {j});
    if j != k {
      UsedSplit(m - {j}, k);
      UsedSplit(m - {k}, j);
      assert m - {j} - {k} == m - {k} - {j};
    }
  }

  lemma UsedInsert(m: Contents, k: seq<byte>, v: Value)
    ensures Used(m[k := v]) == Used(m - {k}) + Cost(k, v)
  {
    UsedSplit(m[k := v], k);
    assert m[k := v] - {k} == m - {k};
  }

  // ---------- Laws of concatenation ----------

  lemma {:induction false} LiveConcat(a: seq<Record>, c: seq<Record>)
    ensures Live(a + c) == Live(a) + Live(c)
  {
    if a == [] {
      assert a + c == c;
      assert Live(a) == [];
      assert Live(a + c) == Live(c);
    } else {
      assert (a + c)[1..] == a[1..] + c;
      LiveConcat(a[1..], c);
      if a[0].IsHole() {
        assert Live(a + c) == Live(a[1..] + c);
      } else {
        calc {
          Live(a + c);
          [a[0]] + Live(a[1..] + c);
          [a[0]] + (Live(a[1..]) + Live(c));
          { JoinThree([a[0]], Live(a[1..]), Live(c)); }
          [a[0]] + Live(a[1..]) + Live(c);
          Live(a) + Live(c);
        }
      }
    }
  }

  lemma JoinThree(a: seq<Record>, b: seq<Record>, c: seq<Record>)
    ensures a + (b + c) == a + b + c
  {
  }

  lemma {:induction false} ContentsConcat(a: seq<Record>, c: seq<Record>)
    ensures ContentsOf(a + c) == ContentsOf(c) + ContentsOf(a)
  {
    hide UniqueKeys;
    if a == [] {
      assert a + c == c;
    } else {
      assert (a + c)[1..] == a[1..] + c;
      ContentsConcat(a[1..], c);
      var m, n := ContentsOf(c), ContentsOf(a[1..]);
      if a[0].IsHole() {
        assert ContentsOf(a + c) == m + n;
      } else {
        assert ContentsOf(a + c) == (m + n)[a[0].Key() := a[0].Value()];
        assert ContentsOf(a) == n[a[0].Key() := a[0].Value()];
      }
    }
  }

  lemma {:induction false} UniqueConcat(a: seq<Record>, c: seq<Record>)
    ensures UniqueKeys(a + c) <==>
      UniqueKeys(a) && UniqueKeys(c) && ContentsOf(a).Keys !! ContentsOf(c).Keys
  {
    if a == [] {
      assert a + c == c;
    } else {
      UniqueConcat(a[1..], c);
      ContentsConcat(a[1..], c);
      assert (a + c)[1..] == a[1..] + c;
    }
  }

  // ---------- Holes carry no meaning ----------

  lemma {:induction false} LiveMeansTheSame(rs: seq<Record>)
    ensures NoHoles(Live(rs))
    ensures ContentsOf(Live(rs)) == ContentsOf(rs)
    ensures UniqueKeys(Live(rs)) <==> UniqueKeys(rs)
    ensures WellFormed(rs) ==> WellFormed(Live(rs))
    ensures Extent(Live(rs)) <= Extent(rs)
  {
    if rs != [] {
      LiveMeansTheSame(rs[1..]);
      if !rs[0].IsHole() {
        assert Live(rs)[1..] == Live(rs[1..]);
      }
    }
  }

  lemma {:induction false} LiveOfNoHoles(rs: seq<Record>)
    requires NoHoles(rs)
    ensures Live(rs) == rs
  {
    if rs != [] {
      LiveOfNoHoles(rs[1..]);
      assert rs == [rs[0]] + rs[1..];
    }
  }

  lemma {:induction false} LiveOfHoles(rs: seq<Record>)
    requires forall i :: 0 <= i < |rs| ==> rs[i].IsHole()
    ensures Live(rs) == []
  {
    if rs != [] {
      LiveOfHoles(rs[1..]);
    }
  }

  /** The live items of a table take exactly the bytes its contents need. */
  lemma {:induction false} UsedIsLiveExtent(rs: seq<Record>)
    requires UniqueKeys(rs) && WellFormed(rs)
    ensures Used(ContentsOf(rs)) == Extent(Live(rs)) <= Extent(rs)
  {
    if rs != [] {
      UsedIsLiveExtent(rs[1..]);
      if !rs[0].IsHole() {
        var m, k, v := ContentsOf(rs[1..]), rs[0].Key(), rs[0].Value();
        UsedInsert(m, k, v);
        assert m - {k} == m;
        assert rs[0].Size() == Cost(k, v);
        assert Live(rs)[1..] == Live(rs[1..]);
      }
    }
  }

  // ---------- Looking a key up ----------

  ghost predicate Matches(r: Record, key: seq<byte>) {
    !r.IsHole() && r.Key() == key
  }

  lemma {:induction false} NoMatchNoKey(rs: seq<Record>, key: seq<byte>)
    ensures key in ContentsOf(rs) <==> exists i :: 0 <= i < |rs| && Matches(rs[i], key)
  {
    if rs != [] {
      NoMatchNoKey(rs[1..], key);
      if key in ContentsOf(rs) {
        if Matches(rs[0], key) {
        } else {
          var i :| 0 <= i < |rs[1..]| && Matches(rs[1..][i], key);
          assert Matches(rs[i + 1], key);
        }
      }
      if i :| 0 <= i < |rs| && Matches(rs[i], key) {
        if i > 0 {
          assert Matches(rs[1..][i - 1], key);
        }
      }
    }
  }

  // ---------- What each walk looks for; `|rs|` stands for "none" ----------

  function FirstHole(rs: seq<Record>, i: nat): (k: nat)
    requires i <= |rs|
    ensures i <= k <= |rs|
    ensures forall j :: i <= j < k ==> !rs[j].IsHole()
    ensures k < |rs| ==> rs[k].IsHole()
    decreases |rs| - i
  {
    if i == |rs| || rs[i].IsHole() then i else FirstHole(rs, i + 1)
  }

  function FirstItem(rs: seq<Record>, i: nat): (k: nat)
    requires i <= |rs|
    ensures i <= k <= |rs|
    ensures forall j :: i <= j < k ==> rs[j].IsHole()
    ensures k < |rs| ==> !rs[k].IsHole()
    decreases |rs| - i
  {
    if i == |rs| || !rs[i].IsHole() then i else FirstItem(rs, i + 1)
  }

  ghost function FirstMatch(rs: seq<Record>, i: nat, key: seq<byte>): (k: nat)
    requires i <= |rs|
    ensures i <= k <= |rs|
    ensures forall j :: i <= j < k ==> !Matches(rs[j], key)
    ensures k < |rs| ==> Matches(rs[k], key)
    decreases |rs| - i
  {
    if i == |rs| || Matches(rs[i], key) then i else FirstMatch(rs, i + 1, key)
  }

  /** The key of an item starts with the non-empty string `prefix`. */
  ghost predicate Prefixed(r: Record, prefix: seq<byte>) {
    !r.IsHole() && prefix <= r.Key()
  }

  ghost function FirstPrefixed(rs: seq<Record>, i: nat, prefix: seq<byte>): (k: nat)
    requires i <= |rs|
    ensures i <= k <= |rs|
    ensures forall j :: i <= j < k ==> !Prefixed(rs[j], prefix)
    ensures k < |rs| ==> Prefixed(rs[k], prefix)
    decreases |rs| - i
  {
    if i == |rs| || Prefixed(rs[i], prefix) then i else FirstPrefixed(rs, i + 1, prefix)
  }

  // ---------- Iteration over the items with a common prefix ----------

  datatype Call = Call(key: seq<byte>, buffer: seq<byte>)

  const FOREACH_BUFFER_LENGTH := 8

  function CallFor(r: Record): Call {
    Call(r.Key(), r.Value()[..Min(|r.Value()|, FOREACH_BUFFER_LENGTH)])
  }

  /** The visits that an iteration from record `i` on makes if nothing stops it. */
  ghost function Visits(rs: seq<Record>, i: nat, prefix: seq<byte>): seq<Call>
    requires i <= |rs|
    decreases |rs| - i
  {
    if i == |rs| then []
    else if Prefixed(rs[i], prefix) then [CallFor(rs[i])] + Visits(rs, i + 1, prefix)
    else Visits(rs, i + 1, prefix)
  }

  lemma {:induction false} VisitsSkip(rs: seq<Record>, i: nat, prefix: seq<byte>)
    requires i <= |rs|
    ensures Visits(rs, i, prefix) == Visits(rs, FirstPrefixed(rs, i, prefix), prefix)
    decreases |rs| - i
  {
    if i < |rs| && !Prefixed(rs[i], prefix) {
      VisitsSkip(rs, i + 1, prefix);
    }
  }

  lemma VisitsNone(rs: seq<Record>, prefix: seq<byte>)
    ensures Visits(rs, |rs|, prefix) == []
  {
  }

  lemma VisitsHere(rs: seq<Record>, k: nat, prefix: seq<byte>, visits: seq<Call>, n: nat)
    requires k < |rs| && Prefixed(rs[k], prefix)
    requires n <= |visits| && Visits(rs, k, prefix) == visits[n..]
    ensures n < |visits| && visits[n] == CallFor(rs[k])
    ensures Visits(rs, k + 1, prefix) == visits[n + 1..]
  {
    assert visits[n..][0] == visits[n];
    assert visits[n..][1..] == visits[n + 1..];
  }

  /** The callback answered every one of the calls with true. */
  ghost predicate Accepted(func: seq<Call> -> bool, calls: seq<Call>) {
    forall n :: 0 < n <= |calls| ==> func(calls[..n])
  }

  /** The callback answered the last of the calls, and only that one, with false. */
  ghost predicate Rejected(func: seq<Call> -> bool, calls: seq<Call>) {
    calls != [] && !func(calls) && Accepted(func, calls[..|calls| - 1])
  }

  /** The item to be visited next has an empty value. */
  ghost predicate StuckAtEmpty(func: seq<Call> -> bool, calls: seq<Call>, visits: seq<Call>) {
    Accepted(func, calls) && |calls| < |visits| && visits[|calls|].buffer == []
  }

  lemma NothingYet(func: seq<Call> -> bool)
    ensures Accepted(func, [])
  {
  }

  /** What the visit of record `k` means for the calls made so far. */
  lemma VisitCounts(func: seq<Call> -> bool, calls: seq<Call>, visits: seq<Call>, rs: seq<Record>, k: nat,
                    prefix: seq<byte>)
    requires k < |rs| && Prefixed(rs[k], prefix)
    requires Accepted(func, calls) && calls <= visits && Visits(rs, k, prefix) == visits[|calls|..]
    ensures var c := CallFor(rs[k]);
      && calls + [c] <= visits && Visits(rs, k + 1, prefix) == visits[|calls| + 1..]
      && (c.buffer == [] ==> StuckAtEmpty(func, calls, visits))
      && (if func(calls + [c]) then Accepted(func, calls + [c]) else Rejected(func, calls + [c]))
  {
    hide Visits, Accepted;
    VisitsHere(rs, k, prefix, visits, |calls|);
    OneMore(func, calls, CallFor(rs[k]), visits);
  }

  lemma OneMore(func: seq<Call> -> bool, calls: seq<Call>, c: Call, visits: seq<Call>)
    requires Accepted(func, calls)
    requires calls <= visits && |calls| < |visits| && visits[|calls|] == c
    ensures (calls + [c])[..|calls|] == calls
    ensures calls + [c] <= visits
    ensures func(calls + [c]) ==> Accepted(func, calls + [c])
  {
    var more := calls + [c];
    if func(more) {
      forall n | 0 < n <= |more| ensures func(more[..n]) {
        if n <= |calls| {
          assert more[..n] == calls[..n];
        } else {
          assert more[..n] == more;
        }
      }
    }
  }

  ghost predicate Distinct(cs: seq<Call>) {
    forall i, j :: 0 <= i < j < |cs| ==> cs[i].key != cs[j].key
  }

  ghost predicate Visited(cs: seq<Call>, k: seq<byte>) {
    exists i :: 0 <= i < |cs| && cs[i].key == k
  }

  ghost predicate EntryVisit(c: Call, m: Contents) {
    c.key in m && c.buffer == m[c.key][..Min(|m[c.key]|, 8)]
  }

  /** The iteration visits every entry of the map whose key starts with the
      prefix, each exactly once, and hands out the beginning of its value. */
  lemma {:induction false} VisitsAreEntries(rs: seq<Record>, i: nat, prefix: seq<byte>)
    requires i <= |rs| && UniqueKeys(rs[i..])
    ensures Distinct(Visits(rs, i, prefix))
    ensures forall c :: c in Visits(rs, i, prefix) ==> EntryVisit(c, ContentsOf(rs[i..]))
    ensures forall k :: Visited(Visits(rs, i, prefix), k) <==> k in ContentsOf(rs[i..]) && prefix <= k
    decreases |rs| - i
  {
    if i < |rs| {
      var r, rest := rs[i], rs[i + 1..];
      assert rs[i..][1..] == rest;
      VisitsAreEntries(rs, i + 1, prefix);
      var cs, m := Visits(rs, i + 1, prefix), ContentsOf(rest);
      if !r.IsHole() {
        assert ContentsOf(rs[i..]) == m[r.Key() := r.Value()];
        if prefix <= r.Key() {
          VisitFirst(CallFor(r), cs, m, r.Value(), prefix);
        } else {
          VisitElse(r.Key(), cs, m, r.Value(), prefix);
        }
      }
    }
  }

  lemma VisitFirst(c: Call, cs: seq<Call>, m: Contents, v: Value, prefix: seq<byte>)
    requires c.key !in m && prefix <= c.key && Distinct(cs)
    requires c.buffer == v[..Min(|v|, FOREACH_BUFFER_LENGTH)]
    requires forall d :: d in cs ==> EntryVisit(d, m)
    requires forall k :: Visited(cs, k) <==> k in m && prefix <= k
    ensures Distinct([c] + cs)
    ensures forall d :: d in [c] + cs ==> EntryVisit(d, m[c.key := v])
    ensures forall k :: Visited([c] + cs, k) <==> k in m[c.key := v] && prefix <= k
  {
    forall k ensures Visited([c] + cs, k) <==> k == c.key || Visited(cs, k) {
      if k == c.key {
        assert ([c] + cs)[0].key == k;
      }
      if i :| 0 <= i < |cs| && cs[i].key == k {
        assert ([c] + cs)[i + 1].key == k;
      }
    }
    forall i, j | 0 <= i < j < |[c] + cs|
      ensures ([c] + cs)[i].key != ([c] + cs)[j].key
    {
      assert ([c] + cs)[j] == cs[j - 1];
      assert Visited(cs, cs[j - 1].key);
    }
  }

  lemma VisitElse(key: seq<byte>, cs: seq<Call>, m: Contents, v: Value, prefix: seq<byte>)
    requires key !in m && !(prefix <= key)
    requires forall d :: d in cs ==> EntryVisit(d, m)
    requires forall k :: Visited(cs, k) <==> k in m && prefix <= k
    ensures forall d :: d in cs ==> EntryVisit(d, m[key := v])
    ensures forall k :: Visited(cs, k) <==> k in m[key := v] && prefix <= k
  {
  }

  /** What it means to put the record `q` in place of the matching record `r`. */
  lemma ReplaceMatch(a: seq<Record>, r: Record, c: seq<Record>, q: Record)
    requires !r.IsHole()
    requires UniqueKeys(a + [r] + c)
    requires q.IsHole() || q.Key() == r.Key()
    ensures UniqueKeys(a + [q] + c)
    ensures r.Key() in ContentsOf(a + [r] + c)
    ensures ContentsOf(a + [r] + c)[r.Key()] == r.Value()
    ensures ContentsOf(a + [q] + c) ==
      if q.IsHole() then ContentsOf(a + [r] + c) - {r.Key()}
      else ContentsOf(a + [r] + c)[r.Key() := q.Value()]
  {
    ContentsOfThree(a, r, c);
    ContentsOfThree(a, q, c);
    MiddleOfThree(ContentsOf(c), r.Key(), r.Value(), q.Value(), ContentsOf(a));
  }

  lemma MiddleOfThree(m: Contents, k: seq<byte>, v: Value, w: Value, n: Contents)
    requires k !in m && k !in n
    ensures var s := m + map[k := v] + n;
            && k in s && s[k] == v
            && s - {k} == m + map[] + n
            && s[k := w] == m + map[k := w] + n
  {
  }

  lemma ContentsOfThree(a: seq<Record>, r: Record, c: seq<Record>)
    ensures ContentsOf(a + [r] + c) == ContentsOf(c) + ContentsOf([r]) + ContentsOf(a)
    ensures ContentsOf([r]) == if r.IsHole() then map[] else map[r.Key() := r.Value()]
    ensures UniqueKeys(a + [r] + c) <==>
      && UniqueKeys(a) && UniqueKeys(c)
      && ContentsOf(a).Keys !! ContentsOf(c).Keys
      && ContentsOf([r]).Keys !! ContentsOf(a).Keys
      && ContentsOf([r]).Keys !! ContentsOf(c).Keys
  {
    hide ContentsOf, UniqueKeys;
    ContentsConcat(a + [r], c);
    ContentsConcat(a, [r]);
    UniqueConcat(a + [r], c);
    UniqueConcat(a, [r]);
    ContentsOfOne(r);
  }

  lemma ContentsOfOne(r: Record)
    ensures ContentsOf([r]) == if r.IsHole() then map[] else map[r.Key() := r.Value()]
    ensures UniqueKeys([r])
  {
  }

  lemma ContentsOfNone()
    ensures ContentsOf([]) == map[]
    ensures UniqueKeys([])
  {
  }

  lemma AppendItem(rs: seq<Record>, r: Record)
    requires UniqueKeys(rs) && !r.IsHole() && r.Key() !in ContentsOf(rs)
    ensures UniqueKeys(rs + [r])
    ensures ContentsOf(rs + [r]) == ContentsOf(rs)[r.Key() := r.Value()]
  {
    hide UniqueKeys, ContentsOf;
    ContentsOfNone();
    ContentsOfThree(rs, r, []);
    assert rs + [r] + [] == rs + [r];
  }
}
