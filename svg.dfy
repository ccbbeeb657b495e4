/**
  The `svg` command: one SVG file per input tree. The first tree is written
  to the output name as given; tree number `n > 0` goes to the output name,
  less a trailing ".svg" extension, followed by "_", `n` padded to three
  digits and ".svg". Every file gets the same layout and canvas, chosen by
  the radial and circular flags.
*/
module Svg {
  import opened Format
  import opened Seqs

  /** Every side of every canvas gets this margin, in pixels. */
  const MARGIN: int := 30

  // ---------------------------------------------------------------------
  // File names
  // ---------------------------------------------------------------------

  /**
    Go's `filepath.Ext` with '/' as the separator: the suffix of the final
    path element that starts at its last '.', or "" when that element has
    no '.'.
  */
  function Ext(path: string): (e: string)
    ensures |e| <= |path|
    ensures e != "" ==> e[0] == '.'
  {
    ExtScan(path, |path|)
  }

  /** The backward scan of `Ext` from position `n` down to the last '/'. */
  function ExtScan(path: string, n: nat): (e: string)
    requires n <= |path|
    ensures |e| <= |path|
    ensures e != "" ==> e[0] == '.'
  {
    if n == 0 || path[n - 1] == '/' then ""
    else if path[n - 1] == '.' then path[n - 1..]
    else ExtScan(path, n - 1)
  }

  /** The scan from `n`, when the characters from `n` on are neither '.' nor '/'. */
  lemma {:induction false} ExtScanSpec(path: string, n: nat)
    requires n <= |path|
    requires forall j :: n <= j < |path| ==> path[j] != '.' && path[j] != '/'
    ensures var e := ExtScan(path, n);
      && |e| <= |path| && e == path[|path| - |e|..]
      && (e != "" ==> e[0] == '.' && '/' !in e && '.' !in e[1..])
      && (e == "" ==> forall i :: 0 <= i < |path| && '/' !in path[i..] ==> path[i] != '.')
  {
    if n > 0 && path[n - 1] == '/' {
      assert forall i :: 0 <= i < n ==> path[i..][n - 1 - i] == '/';
    } else if n > 0 && path[n - 1] != '.' {
      ExtScanSpec(path, n - 1);
    }
  }

  /**
    What `Ext` returns: a suffix of the path that is empty or starts with
    '.' and holds no other '.' and no '/'; and it is empty only when the
    final path element has no '.'.
  */
  lemma ExtSpec(path: string)
    ensures var e := Ext(path);
      && |e| <= |path| && e == path[|path| - |e|..]
      && (e != "" ==> e[0] == '.' && '/' !in e && '.' !in e[1..])
      && (e == "" ==> forall i :: 0 <= i < |path| && '/' !in path[i..] ==> path[i] != '.')
  {
    ExtScanSpec(path, |path|);
  }

  /** A path ending in ".svg" has that extension, whatever precedes it. */
  lemma ExtOfSvg(base: string)
    ensures Ext(base + ".svg") == ".svg"
  {
    var p := base + ".svg";
    var n := |p|;
    assert p[n - 1] == 'g' && p[n - 2] == 'v' && p[n - 3] == 's' && p[n - 4] == '.';
    assert ExtScan(p, n) == ExtScan(p, n - 1);
    assert ExtScan(p, n - 1) == ExtScan(p, n - 2);
    assert ExtScan(p, n - 2) == ExtScan(p, n - 3);
    assert ExtScan(p, n - 3) == p[|base|..] == ".svg";
  }

  /** The output name less a ".svg" extension; any other extension is kept. */
  function Stem(fname: string): (stem: string)
    ensures Ext(fname) == ".svg" ==> stem + ".svg" == fname
    ensures Ext(fname) != ".svg" ==> stem == fname
  {
    ExtSpec(fname);
    if Ext(fname) == ".svg" then fname[..|fname| - 4] else fname
  }

  /**
    The name of the file for tree number `ntree` (counted from 0), given
    the output name `fname`.
  */
  function OutputName(fname: string, ntree: nat): (name: string)
    ensures ntree == 0 ==> name == fname
    ensures ntree > 0 ==> |name| == |Stem(fname)| + |Pad3(ntree)| + 5
  {
    if ntree == 0 then fname
    else Stem(fname) + "_" + Pad3(ntree) + ".svg"
  }

  /** Every file after the first has the ".svg" extension, whatever the output name's. */
  lemma LaterNamesAreSvg(fname: string, ntree: nat)
    requires ntree > 0
    ensures Ext(OutputName(fname, ntree)) == ".svg"
  {
    ExtOfSvg(Stem(fname) + "_" + Pad3(ntree));
  }

  /** A ".svg" extension is dropped before the counter and put back after it. */
  lemma {:induction false} SvgExtensionReplaced(base: string, ntree: nat)
    requires ntree > 0
    ensures OutputName(base + ".svg", ntree) == base + "_" + Pad3(ntree) + ".svg"
  {
    ExtOfSvg(base);
    assert Stem(base + ".svg") + ".svg" == base + ".svg";
    assert Stem(base + ".svg") == (base + ".svg")[..|base|];
  }

  /** Any other extension, or none, stays in the name, before the counter. */
  lemma OtherExtensionKept(fname: string, ntree: nat)
    requires ntree > 0 && Ext(fname) != ".svg"
    ensures OutputName(fname, ntree) == fname + "_" + Pad3(ntree) + ".svg"
  {
  }

  /**
    A later tree's name is the stem, "_", the padded counter and ".svg", so
    the counter can be read back from a fixed place before the extension.
  */
  lemma {:induction false} CounterReadBack(fname: string, ntree: nat)
    requires ntree > 0
    ensures var name := OutputName(fname, ntree); var p := Pad3(ntree);
      && DigitsValue(name[|Stem(fname)| + 1..|Stem(fname)| + 1 + |p|]) == ntree
  {
    MiddleSlice(Stem(fname) + "_", Pad3(ntree), ".svg");
    Pad3Spec(ntree);
  }

  /** Different trees of one run never share a file. */
  lemma {:induction false} OutputNamesDistinct(fname: string, a: nat, b: nat)
    requires a != b
    ensures OutputName(fname, a) != OutputName(fname, b)
  {
    if a > 0 && b > 0 {
      CounterReadBack(fname, a);
      CounterReadBack(fname, b);
      var na, nb := OutputName(fname, a), OutputName(fname, b);
      var s := |Stem(fname)| + 1;
      if |Pad3(a)| == |Pad3(b)| {
        assert na[s..s + |Pad3(a)|] != nb[s..s + |Pad3(b)|];
      } else {
        assert |na| != |nb|;
      }
    } else {
      var n := if a > 0 then a else b;
      CounterReadBack(fname, n);
      assert |OutputName(fname, n)| > |fname|;
    }
  }

  // ---------------------------------------------------------------------
  // Layout and canvas
  // ---------------------------------------------------------------------

  datatype Layout = Normal | Radial | Circular

  /** The radial flag wins over the circular flag; with neither, the layout is normal. */
  function ChooseLayout(radial: bool, circular: bool): (l: Layout)
    ensures l == Radial <==> radial
    ensures l == Circular <==> !radial && circular
    ensures l == Normal <==> !radial && !circular
  {
    if radial then Radial else if circular then Circular else Normal
  }

  /** Go's `min` on two ints. */
  function Min(a: int, b: int): (m: int)
    ensures m <= a && m <= b && (m == a || m == b)
  {
    if a <= b then a else b
  }

  /** The drawer's canvas: its width and height, then its four margins in argument order. */
  datatype Canvas = Canvas(width: int, height: int, margins: seq<int>)

  /**
    The canvas used for a layout: a circular drawing gets a square whose
    side is the smaller of the requested width and height; the other
    layouts get the requested size. All margins are `MARGIN`.
  */
  function CanvasFor(layout: Layout, width: int, height: int): (c: Canvas)
    ensures c.margins == [MARGIN, MARGIN, MARGIN, MARGIN]
    ensures layout == Circular ==>
      c.width == c.height && c.width <= width && c.width <= height && (c.width == width || c.width == height)
    ensures layout != Circular ==> c.width == width && c.height == height
  {
    var margins := [MARGIN, MARGIN, MARGIN, MARGIN];
    if layout == Circular then Canvas(Min(width, height), Min(width, height), margins)
    else Canvas(width, height, margins)
  }

  // ---------------------------------------------------------------------
  // The loop over the trees
  // ---------------------------------------------------------------------

  /** What is drawn for one tree: the file, the layout and the canvas. */
  datatype Drawing = Drawing(file: string, layout: Layout, canvas: Canvas)

  /**
    The drawing of tree number `ntree`: the file `OutputName` gives for it,
    the layout the flags select and that layout's canvas.
  */
  predicate Planned(d: Drawing, fname: string, ntree: nat, radial: bool, circular: bool, width: int, height: int) {
    && d.file == OutputName(fname, ntree)
    && d.layout == ChooseLayout(radial, circular)
    && d.canvas == CanvasFor(d.layout, width, height)
  }

  /** Appending the planned drawing for the next position keeps every drawing planned. */
  lemma PlannedSnoc(plan: seq<Drawing>, d: Drawing, fname: string, radial: bool, circular: bool, width: int, height: int)
    requires forall i :: 0 <= i < |plan| ==> Planned(plan[i], fname, i, radial, circular, width, height)
    requires Planned(d, fname, |plan|, radial, circular, width, height)
    ensures forall i :: 0 <= i < |plan| + 1 ==> Planned((plan + [d])[i], fname, i, radial, circular, width, height)
  {
    assert forall i :: 0 <= i < |plan| ==> (plan + [d])[i] == plan[i];
  }

  /**
    The loop of the `svg` command over `treeCount` trees read in order:
    `ntree` starts at 0 and counts the trees already drawn; each tree gets
    its own file.
  */
  method PlanDrawings(fname: string, treeCount: nat, radial: bool, circular: bool, width: int, height: int)
    returns (plan: seq<Drawing>)
    ensures |plan| == treeCount
    ensures forall i :: 0 <= i < treeCount ==> Planned(plan[i], fname, i, radial, circular, width, height)
    ensures forall i, j :: 0 <= i < j < treeCount ==> plan[i].file != plan[j].file
  {
    plan := [];
    var ntree := 0;
    while ntree < treeCount
      invariant ntree <= treeCount && |plan| == ntree
      invariant forall i :: 0 <= i < ntree ==> Planned(plan[i], fname, i, radial, circular, width, height)
    {
      var file := OutputName(fname, ntree);
      var layout := ChooseLayout(radial, circular);
      var drawing := Drawing(file, layout, CanvasFor(layout, width, height));
      PlannedSnoc(plan, drawing, fname, radial, circular, width, height);
      plan := plan + [drawing];
      ntree := ntree + 1;
    }
    forall i, j | 0 <= i < j < treeCount
      ensures plan[i].file != plan[j].file
    {
      OutputNamesDistinct(fname, i, j);
    }
  }
}
