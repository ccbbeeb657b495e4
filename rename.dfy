/**
 The `rename` command's logic (`cmd/rename.go`): reading the two-column map
 file and renaming the tips of a tree through a snapshot of its tip index.

 The map file is given as the sequence of its lines (end of input ends the
 read loop). Go's map iteration order is unspecified, so `RenameTree` takes,
 beside the map, the order in which the iteration visits its keys; every
 property below holds for every such order.
 */
module Rename {
  import opened Wrappers
  import opened Format
  import opened Strings
  import opened Trees
  import opened Seqs

  const TAB: char := '\t'

  // ---------------------------------------------------------------------
  // readMapFile
  // ---------------------------------------------------------------------

  /** A line is accepted when splitting it on tabs gives exactly two fields. */
  predicate WellFormed(line: string) {
    |Split(line, TAB)| == 2
  }

  /** Well-formed means exactly one tab; so an empty line, and lines with no tab or several, are malformed. */
  lemma MalformedLines(line: string)
    ensures WellFormed(line) <==> Count(line, TAB) == 1
    ensures line == [] ==> !WellFormed(line)
  {
  }

  function Key(line: string): string
    requires WellFormed(line)
  {
    Split(line, TAB)[0]
  }

  function Value(line: string): string
    requires WellFormed(line)
  {
    Split(line, TAB)[1]
  }

  /** A well-formed line is its key, a tab and its value. */
  lemma WellFormedLine(line: string)
    requires WellFormed(line)
    ensures line == Key(line) + [TAB] + Value(line)
    ensures TAB !in Key(line) && TAB !in Value(line)
  {
    SplitJoin(line, TAB);
    TailOfPair(Split(line, TAB));
  }

  /** The map that inserting the lines in order produces: a later line overwrites an earlier one with the same key. */
  function MapOf(lines: seq<string>): map<string, string>
    requires forall i :: 0 <= i < |lines| ==> WellFormed(lines[i])
  {
    if lines == [] then map[]
    else
      var last := lines[|lines| - 1];
      MapOf(lines[..|lines| - 1])[Key(last) := Value(last)]
  }

  /** The position of the first malformed line, or the number of lines if there is none. */
  function FirstMalformed(lines: seq<string>): (k: nat)
    ensures k <= |lines|
    ensures forall i :: 0 <= i < k ==> WellFormed(lines[i])
    ensures k < |lines| ==> !WellFormed(lines[k])
  {
    if lines == [] || !WellFormed(lines[0]) then 0 else 1 + FirstMalformed(lines[1..])
  }

  /** The fixed text in front of the line number of a format error. */
  const FormatErrorPrefix: string := "Map file does not have 2 fields at line: "

  /**
   The error text for a malformed line; `nl` is its 1-based line number. The
   text after the fixed prefix is the number in decimal.
   */
  function FormatErrorMessage(nl: nat): (msg: string)
    ensures |msg| > |FormatErrorPrefix| && msg[..|FormatErrorPrefix|] == FormatErrorPrefix
    ensures AllDigits(msg[|FormatErrorPrefix|..])
  {
    var msg := FormatErrorPrefix + Decimal(nl);
    assert msg[|FormatErrorPrefix|..] == Decimal(nl);
    msg
  }

  /** The line number can be read back from the message. */
  lemma FormatErrorReadBack(nl: nat)
    ensures DigitsValue(FormatErrorMessage(nl)[|FormatErrorPrefix|..]) == nl
  {
    assert FormatErrorMessage(nl)[|FormatErrorPrefix|..] == Decimal(nl);
    DecimalRoundTrip(nl);
  }

  /** Two error messages are equal only when they name the same line. */
  lemma FormatErrorNamesLine(a: nat, b: nat)
    ensures FormatErrorMessage(a) == FormatErrorMessage(b) ==> a == b
  {
    FormatErrorReadBack(a);
    FormatErrorReadBack(b);
  }

  /**
   `readMapFile`: reads the lines in order, stopping at the first malformed
   one with an error naming its 1-based number; the map returned then holds
   the lines before it.
   */
  method ReadMapFile(lines: seq<string>) returns (outmap: map<string, string>, err: Option<string>)
    ensures var k := FirstMalformed(lines);
      && outmap == MapOf(lines[..k])
      && err == (if k < |lines| then Some(FormatErrorMessage(k + 1)) else None)
  {
    outmap := map[];
    var i := 0;
    var nl := 1;
    while i < |lines|
      invariant 0 <= i <= |lines| && nl == i + 1
      invariant forall j :: 0 <= j < i ==> WellFormed(lines[j])
      invariant outmap == MapOf(lines[..i])
    {
      var cols := Split(lines[i], TAB);
      if |cols| != 2 {
        return outmap, Some(FormatErrorMessage(nl));
      }
      outmap := outmap[cols[0] := cols[1]];
      TakeSnoc(lines, i);
      i := i + 1;
      nl := nl + 1;
    }
    TakeAll(lines);
    err := None;
  }

  /** The keys of the map are exactly the first fields of the lines. */
  lemma {:induction false} MapOfKeys(lines: seq<string>, key: string)
    requires forall i :: 0 <= i < |lines| ==> WellFormed(lines[i])
    ensures key in MapOf(lines) <==> exists i :: 0 <= i < |lines| && Key(lines[i]) == key
  {
    if lines != [] {
      var init := lines[..|lines| - 1];
      MapOfKeys(init, key);
      if exists i :: 0 <= i < |lines| && Key(lines[i]) == key {
        var i :| 0 <= i < |lines| && Key(lines[i]) == key;
        if i < |lines| - 1 {
          assert init[i] == lines[i];
        }
      }
      if key in MapOf(init) {
        var i :| 0 <= i < |init| && Key(init[i]) == key;
        assert lines[i] == init[i];
      }
    }
  }

  /** The value of a key is the second field of the last line with that key. */
  lemma {:induction false} MapOfLastWins(lines: seq<string>, j: nat)
    requires forall i :: 0 <= i < |lines| ==> WellFormed(lines[i])
    requires j < |lines|
    requires forall i :: j < i < |lines| ==> Key(lines[i]) != Key(lines[j])
    ensures Key(lines[j]) in MapOf(lines) && MapOf(lines)[Key(lines[j])] == Value(lines[j])
  {
    if j < |lines| - 1 {
      var init := lines[..|lines| - 1];
      assert forall i :: 0 <= i < |init| ==> init[i] == lines[i];
      MapOfLastWins(init, j);
    }
  }

  /** The first malformed line is the one line that is malformed and follows only well-formed ones. */
  lemma {:induction false} FirstMalformedUnique(lines: seq<string>, k: nat)
    requires k <= |lines|
    requires forall i :: 0 <= i < k ==> WellFormed(lines[i])
    requires k < |lines| ==> !WellFormed(lines[k])
    ensures FirstMalformed(lines) == k
  {
    if k > 0 {
      assert WellFormed(lines[0]);
      assert forall i :: 0 <= i < k - 1 ==> lines[1..][i] == lines[i + 1];
      FirstMalformedUnique(lines[1..], k - 1);
    }
  }

  /**
   What follows the first malformed line is never read: inputs that agree up
   to and including that line fail at the same line with the same partial map.
   */
  lemma ReadIgnoresLaterLines(a: seq<string>, b: seq<string>, k: nat)
    requires k == FirstMalformed(a) && k < |a| && k < |b|
    requires a[..k + 1] == b[..k + 1]
    ensures FirstMalformed(b) == k && b[..k] == a[..k]
  {
    forall i | 0 <= i <= k
      ensures b[i] == a[i]
    {
      assert a[i] == a[..k + 1][i];
      assert b[i] == b[..k + 1][i];
    }
    assert forall i :: 0 <= i < k ==> WellFormed(b[i]);
    assert !WellFormed(b[k]);
    FirstMalformedUnique(b, k);
    assert b[..k] == a[..k];
  }

  // ---------------------------------------------------------------------
  // renameTree
  // ---------------------------------------------------------------------

  /** The fixed texts around the key in a not-found error. */
  const NotFoundPrefix: string := "The node "
  const NotFoundSuffix: string := " does not exist in the tree"

  /** The error text for a key that names no tip: the key, between two fixed texts. */
  function NotFoundMessage(name: string): (msg: string)
    ensures |msg| == |NotFoundPrefix| + |name| + |NotFoundSuffix|
    ensures msg[..|NotFoundPrefix|] == NotFoundPrefix
    ensures msg[|NotFoundPrefix|..|NotFoundPrefix| + |name|] == name
    ensures msg[|NotFoundPrefix| + |name|..] == NotFoundSuffix
  {
    MiddleSlice(NotFoundPrefix, name, NotFoundSuffix);
    NotFoundPrefix + name + NotFoundSuffix
  }

  /** Two not-found errors are equal only when they name the same key. */
  lemma NotFoundNamesKey(a: string, b: string)
    ensures NotFoundMessage(a) == NotFoundMessage(b) ==> a == b
  {
    var p := |NotFoundPrefix|;
    if NotFoundMessage(a) == NotFoundMessage(b) {
      assert |a| == |b|;
      assert a == NotFoundMessage(a)[p..p + |a|];
    }
  }

  /** `order` is an iteration order of the map: each of its keys exactly once. */
  ghost predicate IsEnumeration(order: seq<string>, m: map<string, string>) {
    && (forall k :: k in m <==> k in order)
    && Distinct(order)
  }

  /** The position of the first key in `order` that the index does not resolve, or `|order|`. */
  function FirstUnresolved(idx: map<string, nat>, order: seq<string>): (k: nat)
    ensures k <= |order|
    ensures forall j :: 0 <= j < k ==> order[j] in idx
    ensures k < |order| ==> order[k] !in idx
  {
    if order == [] || order[0] !in idx then 0 else 1 + FirstUnresolved(idx, order[1..])
  }

  /** The first unresolved key is the one unresolved key that follows only resolved ones. */
  lemma {:induction false} FirstUnresolvedUnique(idx: map<string, nat>, order: seq<string>, k: nat)
    requires k <= |order|
    requires forall j :: 0 <= j < k ==> order[j] in idx
    requires k < |order| ==> order[k] !in idx
    ensures FirstUnresolved(idx, order) == k
  {
    if k > 0 {
      assert order[0] in idx;
      assert forall j :: 0 <= j < k - 1 ==> order[1..][j] == order[j + 1];
      FirstUnresolvedUnique(idx, order[1..], k - 1);
    }
  }

  /**
   The renaming loop as the code runs it, after its first `n` steps: for each
   key in turn, the node the index gives for it gets the key's new name. (A
   key the index or the table lacks changes nothing; the loop never gets
   that far, since it stops at the first key that names no tip.)
   */
  function ApplyRenames(ns: seq<Node>, idx: map<string, nat>, m: map<string, string>, keys: seq<string>, n: nat): (r: seq<Node>)
    requires n <= |keys|
    ensures |r| == |ns|
    ensures forall i :: 0 <= i < |ns| ==> r[i].degree == ns[i].degree
  {
    if n == 0 then ns
    else
      var prev := ApplyRenames(ns, idx, m, keys, n - 1);
      var key := keys[n - 1];
      if key in idx && key in m && idx[key] < |ns| then prev[idx[key] := prev[idx[key]].(name := m[key])]
      else prev
  }

  /**
   The renaming as a single simultaneous update: the tip that the index of
   the original nodes gives for a key in `keys` takes that key's new name;
   every other node is left as it was. Names are looked up in the original
   nodes only, so renames never chain.
   */
  function RenamedTips(ns: seq<Node>, m: map<string, string>, keys: seq<string>): (r: seq<Node>)
  {
    var idx := TipIndex(ns);
    seq(|ns|, i requires 0 <= i < |ns| =>
      var name := ns[i].name;
      if name in keys && name in m && name in idx && idx[name] == i then ns[i].(name := m[name]) else ns[i])
  }

  /** Only which keys are present matters, not their order. */
  lemma RenamedTipsOrderFree(ns: seq<Node>, m: map<string, string>, a: seq<string>, b: seq<string>)
    requires forall k :: k in a ==> k in m
    requires forall k :: k in a <==> k in b
    ensures RenamedTips(ns, m, a) == RenamedTips(ns, m, b)
  {
  }

  /**
   What the simultaneous update promises: node count and neighbour counts are
   kept; each key's tip (in the index of the original nodes) has the key's new
   name; a node that is no key's tip is unchanged.
   */
  lemma RenamedTipsSpec(ns: seq<Node>, m: map<string, string>, keys: seq<string>)
    requires forall k :: k in keys ==> k in m
    ensures var r := RenamedTips(ns, m, keys);
      && |r| == |ns|
      && (forall i :: 0 <= i < |ns| ==> r[i].degree == ns[i].degree)
      && (forall k :: k in keys && k in TipIndex(ns) ==> r[TipIndex(ns)[k]].name == m[k])
      && (forall i :: 0 <= i < |ns| && (forall k :: k in keys && k in TipIndex(ns) ==> TipIndex(ns)[k] != i) ==> r[i] == ns[i])
  {
  }

  /**
    One renaming step agrees with the simultaneous update at node `i`: if the
    first `n - 1` steps produced the update for the first `n - 1` keys, step
    `n` produces the update for the first `n` keys there.
  */
  lemma RenameStepAt(ns: seq<Node>, m: map<string, string>, keys: seq<string>, n: nat, i: nat)
    requires 0 < n <= |keys| && i < |ns|
    requires forall j :: 0 <= j < n ==> keys[j] in TipIndex(ns) && keys[j] in m
    requires keys[n - 1] !in keys[..n - 1]
    requires ApplyRenames(ns, TipIndex(ns), m, keys, n - 1)[i] == RenamedTips(ns, m, keys[..n - 1])[i]
    ensures ApplyRenames(ns, TipIndex(ns), m, keys, n)[i] == RenamedTips(ns, m, keys[..n])[i]
  {
    var idx, key := TipIndex(ns), keys[n - 1];
    InTakeSnoc(keys, n - 1);
    var name := ns[i].name;
    if i == idx[key] {
      assert name == key;
    } else if name == key {
      assert RenamedTips(ns, m, keys[..n])[i] == ns[i] == RenamedTips(ns, m, keys[..n - 1])[i];
    }
  }

  /** With distinct keys, renaming one key after another agrees with the simultaneous update at every node. */
  lemma {:induction false} ApplyRenamesAgree(ns: seq<Node>, m: map<string, string>, keys: seq<string>, n: nat)
    requires n <= |keys|
    requires forall j :: 0 <= j < n ==> keys[j] in TipIndex(ns) && keys[j] in m
    requires Distinct(keys)
    ensures forall i :: 0 <= i < |ns| ==> ApplyRenames(ns, TipIndex(ns), m, keys, n)[i] == RenamedTips(ns, m, keys[..n])[i]
  {
    if n > 0 {
      ApplyRenamesAgree(ns, m, keys, n - 1);
      DistinctNotInPrefix(keys, n - 1);
      forall i | 0 <= i < |ns|
        ensures ApplyRenames(ns, TipIndex(ns), m, keys, n)[i] == RenamedTips(ns, m, keys[..n])[i]
      {
        RenameStepAt(ns, m, keys, n, i);
      }
    }
  }

  /** With distinct keys, renaming one key after another equals the simultaneous update. */
  lemma ApplyRenamesIsRenamedTips(ns: seq<Node>, m: map<string, string>, keys: seq<string>, n: nat)
    requires n <= |keys|
    requires forall j :: 0 <= j < n ==> keys[j] in TipIndex(ns) && keys[j] in m
    requires Distinct(keys)
    ensures ApplyRenames(ns, TipIndex(ns), m, keys, n) == RenamedTips(ns, m, keys[..n])
  {
    ApplyRenamesAgree(ns, m, keys, n);
  }

  /**
   No chaining, for the loop in either visiting order: with `a -> b` and
   `b -> c` in the table, the original `a` tip ends as `b` and the original
   `b` tip as `c`, whether `a` or `b` is visited first.
   */
  lemma NoChaining(ns: seq<Node>, m: map<string, string>, a: string, b: string)
    requires a != b
    requires a in m && b in m && m[a] == b
    requires a in TipIndex(ns) && b in TipIndex(ns)
    ensures ApplyRenames(ns, TipIndex(ns), m, [a, b], 2)[TipIndex(ns)[a]].name == b
    ensures ApplyRenames(ns, TipIndex(ns), m, [b, a], 2)[TipIndex(ns)[a]].name == b
    ensures ApplyRenames(ns, TipIndex(ns), m, [a, b], 2)[TipIndex(ns)[b]].name == m[b]
    ensures ApplyRenames(ns, TipIndex(ns), m, [b, a], 2)[TipIndex(ns)[b]].name == m[b]
  {
    var idx := TipIndex(ns);
    var ia, ib := idx[a], idx[b];
    assert ns[ia].name == a && ns[ib].name == b;
    assert ia != ib;
    var ab, ba := [a, b], [b, a];
    assert ab[0] == a && ab[1] == b && ba[0] == b && ba[1] == a;
    var ab1 := ApplyRenames(ns, idx, m, ab, 1);
    assert ab1[ia].name == m[a];
    var ab2 := ApplyRenames(ns, idx, m, ab, 2);
    assert ab2[ia].name == m[a] && ab2[ib].name == m[b];
    var ba1 := ApplyRenames(ns, idx, m, ba, 1);
    assert ba1[ib].name == m[b];
    var ba2 := ApplyRenames(ns, idx, m, ba, 2);
    assert ba2[ia].name == m[a] && ba2[ib].name == m[b];
  }

  /** The cache calls made after the renaming loop, given the outcome of `ClearBitSets`. */
  function ReconcileCalls(clearErr: Option<string>): seq<CacheCall> {
    if clearErr.Some? then [UpdateTipIndexCall, ClearBitSetsCall]
    else [UpdateTipIndexCall, ClearBitSetsCall, UpdateBitSetCall]
  }

  /**
   The reconciliation at the end of `renameTree`: rebuild the tip index,
   clear the bitsets and, unless clearing failed, recompute them. The nodes
   are not touched.
   */
  method Reconcile(t: Tree, clearErr: Option<string>) returns (err: Option<string>)
    modifies t
    ensures t.nodes == old(t.nodes)
    ensures err == clearErr && t.calls == old(t.calls) + ReconcileCalls(clearErr)
  {
    t.UpdateTipIndex();
    err := t.ClearBitSets(clearErr);
    if err.Some? {
      return err;
    }
    t.UpdateBitSet();
    err := None;
  }

  /**
   The loop of `renameTree` over the table, resolving each key through the
   snapshot index and renaming the node it yields. It stops at the first key
   that names no tip, with an error naming that key.
   */
  method RenameTips(t: Tree, nodeindex: NodeIndex, namemap: map<string, string>, order: seq<string>)
    returns (err: Option<string>)
    requires nodeindex.Valid() && nodeindex.source == t.nodes[..]
    requires forall j :: 0 <= j < |order| ==> order[j] in namemap
    modifies t.nodes
    ensures var ns := old(t.nodes[..]); var k := FirstUnresolved(TipIndex(ns), order);
      && t.nodes[..] == ApplyRenames(ns, TipIndex(ns), namemap, order, k)
      && err == (if k < |order| then Some(NotFoundMessage(order[k])) else None)
  {
    ghost var ns := t.nodes[..];
    ghost var idx := TipIndex(ns);
    ghost var k := FirstUnresolved(idx, order);
    var i := 0;
    while i < |order|
      invariant i <= k
      invariant t.nodes[..] == ApplyRenames(ns, idx, namemap, order, i)
    {
      var name := order[i];
      var node := nodeindex.GetNode(name);
      if node.None? {
        assert i == k;
        return Some(NotFoundMessage(name));
      }
      assert i < k;
      t.SetName(node.value, namemap[name]);
      i := i + 1;
    }
    assert i == |order| == k;
    err := None;
  }

  /**
   `renameTree`: builds one index snapshot, then renames the tip of each key
   in iteration order. The first key that names no tip ends the call with an
   error naming it; renames done before stay, and no cache call is made.
   Otherwise the tip index and bitsets are rebuilt, in that order, and an
   error of `ClearBitSets` (given as `clearErr`) is returned before
   `UpdateBitSet` runs.
   */
  method RenameTree(t: Tree, namemap: map<string, string>, order: seq<string>, clearErr: Option<string>)
    returns (err: Option<string>)
    requires IsEnumeration(order, namemap)
    modifies t, t.nodes
    ensures t.nodes == old(t.nodes)
    ensures var ns := old(t.nodes[..]); var k := FirstUnresolved(TipIndex(ns), order);
      && t.nodes[..] == ApplyRenames(ns, TipIndex(ns), namemap, order, k)
      && t.nodes[..] == RenamedTips(ns, namemap, order[..k])
      && (k < |order| ==> err == Some(NotFoundMessage(order[k])) && t.calls == old(t.calls))
      && (k == |order| ==> err == clearErr && t.calls == old(t.calls) + ReconcileCalls(clearErr))
  {
    var nodeindex := new NodeIndex(t);
    ghost var ns := t.nodes[..];
    err := RenameTips(t, nodeindex, namemap, order);
    ghost var k := FirstUnresolved(TipIndex(ns), order);
    ApplyRenamesIsRenamedTips(ns, namemap, order, k);
    if err.Some? {
      return;
    }
    err := Reconcile(t, clearErr);
  }
}
