/**
 * The value an ArrayTree denotes once node identity, parent links and spare
 * array capacity are forgotten, and the pure functions over it that specify
 * the recursive queries of ArrayTree: size, structural hash and the
 * box-drawing rendering.
 */
module TreeShape {
  import opened Wrappers
  import opened JavaInts

  /** A node's content (absent for Java `null`) and its children in slot order. */
  datatype Shape<T> = Node(content: Option<T>, kids: seq<Shape<T>>)

  // ---------------------------------------------------------------- size

  /** Number of nodes: the node itself plus every descendant. */
  function Size<T>(s: Shape<T>): (n: nat)
    ensures n >= 1 + |s.kids|
    decreases s, 1
  {
    1 + KidsSize(s.kids, |s.kids|)
  }

  /** Summed sizes of the first `n` subtrees, added in slot order as the Java loop does. */
  function KidsSize<T>(ks: seq<Shape<T>>, n: nat): (r: nat)
    requires n <= |ks|
    ensures r >= n
    decreases ks, 0, n
  {
    if n == 0 then 0 else KidsSize(ks, n - 1) + Size(ks[n - 1])
  }

  /** A node whose children all have size `k` counts itself plus `k` per child. */
  lemma UniformSize<T>(s: Shape<T>, k: nat)
    requires forall i | 0 <= i < |s.kids| :: Size(s.kids[i]) == k
    ensures Size(s) == 1 + |s.kids| * k
  {
    KidsSizeUniform(s.kids, |s.kids|, k);
  }

  lemma {:induction false} KidsSizeUniform<T>(ks: seq<Shape<T>>, m: nat, k: nat)
    requires m <= |ks|
    requires forall i | 0 <= i < |ks| :: Size(ks[i]) == k
    ensures KidsSize(ks, m) == m * k
  {
    if m > 0 {
      KidsSizeUniform(ks, m - 1, k);
      assert KidsSize(ks, m) == KidsSize(ks, m - 1) + Size(ks[m - 1]);
      assert (m - 1) * k + k == m * k;
    }
  }

  // ---------------------------------------------------------------- hash

  /** The seed of the hash: the content's own hash, or 1 for `null` content. */
  function ContentHash<T>(c: Option<T>, hash: T -> i32): i32
  {
    match c
    case None => 1
    case Some(v) => hash(v)
  }

  /** Structural hash: the seed folded with `result = 31 * result + childHash` over the children. */
  function HashOf<T>(s: Shape<T>, hash: T -> i32): i32
    decreases s, 1
  {
    KidsHash(ContentHash(s.content, hash), s.kids, |s.kids|, hash)
  }

  /** The fold over the first `n` children, each step wrapped to 32 bits. */
  function KidsHash<T>(seed: i32, ks: seq<Shape<T>>, n: nat, hash: T -> i32): i32
    requires n <= |ks|
    decreases ks, 0, n
  {
    if n == 0 then seed else Wrap(31 * KidsHash(seed, ks, n - 1, hash) + HashOf(ks[n - 1], hash))
  }

  function Pow31(n: nat): nat
  {
    if n == 0 then 1 else 31 * Pow31(n - 1)
  }

  /** The polynomial `31^(n-1-i) * h_i` summed over the first `n` child hashes, without wrap-around. */
  function Polynomial<T>(ks: seq<Shape<T>>, n: nat, hash: T -> i32): int
    requires n <= |ks|
  {
    if n == 0 then 0 else 31 * Polynomial(ks, n - 1, hash) + HashOf(ks[n - 1], hash)
  }

  /**
   * The fold equals the closed form of Java's integer-array hash formula,
   * `31^n * seed + sum of 31^(n-1-i) * h_i`, reduced to 32 bits once.
   */
  lemma {:induction false} KidsHashClosedForm<T>(seed: i32, ks: seq<Shape<T>>, n: nat, hash: T -> i32)
    requires n <= |ks|
    ensures KidsHash(seed, ks, n, hash) == Wrap(Pow31(n) * seed + Polynomial(ks, n, hash))
  {
    if n > 0 {
      var p := Pow31(n - 1);
      var poly := Polynomial(ks, n - 1, hash);
      var h := HashOf(ks[n - 1], hash);
      KidsHashClosedForm(seed, ks, n - 1, hash);
      WrapMulAdd(p * seed + poly, h);
      HornerStep(p, seed, poly, h);
    }
  }

  lemma HornerStep(p: int, seed: int, poly: int, h: int)
    ensures 31 * (p * seed + poly) + h == (31 * p) * seed + (31 * poly + h)
  {
  }

  // ---------------------------------------------------------------- rendering

  const Strike: char := '\U{2502}'
  const Junction: string := "\U{251C}"
  const LastChild: string := "\U{2514}"
  const Horizontal: string := "\U{2500}"
  const TabWidth: nat := 4
  const MaxText: nat := 67
  const KeptText: nat := 63

  /** The node kind; a childless node is called a leaf even when it is a root. */
  function Label(isRoot: bool, isLeaf: bool): string
  {
    if isLeaf then "Blatt " else if isRoot then "Wurzel " else "Innerer Knoten "
  }

  /** Content text longer than 67 characters is cut to 63 characters and an ellipsis. */
  function Abbreviate(text: string): (r: string)
    ensures |r| <= MaxText
    ensures r == text <==> |text| <= MaxText
    ensures r != text ==> r == text[..KeptText] + "..."
  {
    if |text| > MaxText then text[..KeptText] + "..." else text
  }

  /** "(Type): value" for present content, ": Null" for absent content. */
  function Describe<T>(c: Option<T>, typeName: T -> string, show: T -> string): string
  {
    match c
    case None => ": Null"
    case Some(v) => Abbreviate("(" + typeName(v) + "): " + show(v))
  }

  /** One line describing a node without its children (`toStringSimple`). */
  function SimpleLine<T>(isRoot: bool, parentIndex: int, isLeaf: bool, c: Option<T>,
                         typeName: T -> string, show: T -> string): string
  {
    (if isRoot then "" else "[" + IntToString(parentIndex) + "] ")
    + Label(isRoot, isLeaf) + Describe(c, typeName, show) + "\n"
  }

  /**
   * The summary line starts with the bracketed index exactly when the node is not
   * a root (a label never starts with `[`), and ends with its line break.
   */
  lemma SimpleLineShape<T>(isRoot: bool, parentIndex: int, isLeaf: bool, c: Option<T>,
                           typeName: T -> string, show: T -> string)
    ensures var r := SimpleLine(isRoot, parentIndex, isLeaf, c, typeName, show);
            && |r| > 0 && r[|r| - 1] == '\n'
            && (r[0] == '[' <==> !isRoot)
            && (!isRoot ==> r[..|IntToString(parentIndex)| + 3] == "[" + IntToString(parentIndex) + "] ")
  {
    LabelStart(isRoot, isLeaf);
    LinePieces(isRoot, IntToString(parentIndex), Label(isRoot, isLeaf), Describe(c, typeName, show));
  }

  lemma LabelStart(isRoot: bool, isLeaf: bool)
    ensures |Label(isRoot, isLeaf)| > 0 && Label(isRoot, isLeaf)[0] != '['
  {
  }

  /** The two ends of a summary line assembled from its pieces. */
  lemma LinePieces(isRoot: bool, digits: string, kind: string, text: string)
    requires |kind| > 0 && kind[0] != '['
    ensures var r := (if isRoot then "" else "[" + digits + "] ") + kind + text + "\n";
            && |r| > 0 && r[|r| - 1] == '\n'
            && (r[0] == '[' <==> !isRoot)
            && (!isRoot ==> r[..|digits| + 3] == "[" + digits + "] ")
  {
    var prefix := if isRoot then "" else "[" + digits + "] ";
    var rest := kind + text + "\n";
    assert prefix + kind + text + "\n" == prefix + rest;
    assert rest[0] == kind[0] && rest[|rest| - 1] == '\n';
    ConcatEnds(prefix, rest);
  }

  /** What a concatenation shows at its two ends. */
  lemma ConcatEnds(a: string, b: string)
    requires |b| > 0
    ensures (a + b)[..|a|] == a && (a + b)[|a + b| - 1] == b[|b| - 1]
    ensures (a + b)[0] == if a == [] then b[0] else a[0]
  {
  }

  /** The indentation of a line at `depth`: one tab of four characters per level. */
  function Padding(depth: nat, strikes: nat): (p: string)
    ensures |p| == TabWidth * depth
  {
    if depth == 0 then "" else Padding(depth - 1, strikes) + Tab(depth - 1, strikes)
  }

  /** Every position is a blank except the head of tabs 1..strikes, which holds a bar. */
  lemma {:induction false} PaddingAt(depth: nat, strikes: nat, k: nat)
    requires k < TabWidth * depth
    ensures Padding(depth, strikes)[k] == if k % TabWidth == 0 && 1 <= k / TabWidth <= strikes then Strike else ' '
  {
    if k < TabWidth * (depth - 1) {
      PaddingAt(depth - 1, strikes, k);
    } else {
      var j := k - TabWidth * (depth - 1);
      assert k / TabWidth == depth - 1 && k % TabWidth == j;
    }
  }

  function Tab(level: nat, strikes: nat): string
  {
    [if 1 <= level <= strikes then Strike else ' '] + "   "
  }

  /** Whether rendering at (depth, strikes) keeps every bar inside its line's indentation, down the whole subtree. */
  predicate SafeStart<T>(s: Shape<T>, depth: nat, strikes: nat, isLast: bool)
  {
    strikes < depth || (strikes == 0 && (isLast || s.kids == []))
  }

  /** How a node describes itself on one line, from (isRoot, parentIndex, isLeaf, content). */
  type NodeLine<!T> = (bool, int, bool, Option<T>) -> string

  /** `toStringSimple` as the line every node of a rendering contributes. */
  function SimpleLines<T>(typeName: T -> string, show: T -> string): NodeLine<T>
  {
    (isRoot: bool, parentIndex: int, isLeaf: bool, c: Option<T>) => SimpleLine(isRoot, parentIndex, isLeaf, c, typeName, show)
  }

  /** A node's line with its indentation and connector, then its subtree (`toString(depth, strikes, isLastChild)`). */
  function RenderAt<T>(s: Shape<T>, isRoot: bool, parentIndex: int, depth: nat, strikes: nat, isLast: bool,
                       line: NodeLine<T>): string
    requires SafeStart(s, depth, strikes, isLast)
    decreases s, 1
  {
    Padding(depth, strikes) + (if isLast then LastChild else Junction) + Horizontal
    + line(isRoot, parentIndex, s.kids == [], s.content)
    + RenderKids(s.kids, |s.kids|, depth + 1, if isLast then strikes else strikes + 1, line)
  }

  /** The first `n` children, child `i` rendered as a non-root with index `i`. */
  function RenderKids<T>(ks: seq<Shape<T>>, n: nat, depth: nat, strikes: nat, line: NodeLine<T>): string
    requires n <= |ks|
    requires n == 0 || strikes < depth
    decreases ks, 0, n
  {
    if n == 0 then ""
    else RenderKids(ks, n - 1, depth, strikes, line)
         + RenderAt(ks[n - 1], false, n - 1, depth, strikes, n - 1 == |ks| - 1, line)
  }

  /** The whole subtree as `toString()` prints it: the node's line, then its children one level in. */
  function Render<T>(s: Shape<T>, isRoot: bool, parentIndex: int, line: NodeLine<T>): string
  {
    line(isRoot, parentIndex, s.kids == [], s.content) + RenderKids(s.kids, |s.kids|, 1, 0, line)
  }

  // ---------------------------------------------------------------- one line per node

  /** The number of line breaks in a text. */
  function Lines(t: string): nat
  {
    BreaksBefore(t, |t|)
  }

  /** The number of line breaks among the first `n` characters. */
  function BreaksBefore(t: string, n: nat): nat
    requires n <= |t|
  {
    if n == 0 then 0 else BreaksBefore(t, n - 1) + (if t[n - 1] == '\n' then 1 else 0)
  }

  /** Counting depends only on the characters counted. */
  lemma {:induction false} BreaksBeforeAgree(t: string, u: string, n: nat)
    requires n <= |t| && n <= |u|
    requires forall i | 0 <= i < n :: t[i] == u[i]
    ensures BreaksBefore(t, n) == BreaksBefore(u, n)
  {
    if n > 0 {
      BreaksBeforeAgree(t, u, n - 1);
    }
  }

  lemma {:induction false} BreaksBeforeAppend(a: string, b: string, k: nat)
    requires k <= |b|
    ensures BreaksBefore(a + b, |a| + k) == Lines(a) + BreaksBefore(b, k)
  {
    if k == 0 {
      BreaksBeforeAgree(a + b, a, |a|);
    } else {
      BreaksBeforeAppend(a, b, k - 1);
      assert (a + b)[|a| + k - 1] == b[k - 1];
    }
  }

  lemma LinesAppend(a: string, b: string)
    ensures Lines(a + b) == Lines(a) + Lines(b)
  {
    BreaksBeforeAppend(a, b, |b|);
  }

  lemma {:induction false} NoNewline(t: string)
    requires '\n' !in t
    ensures Lines(t) == 0
  {
    NoBreaksBefore(t, |t|);
  }

  lemma {:induction false} NoBreaksBefore(t: string, n: nat)
    requires n <= |t|
    requires '\n' !in t
    ensures BreaksBefore(t, n) == 0
  {
    if n > 0 {
      NoBreaksBefore(t, n - 1);
    }
  }

  /** Content texts without line breaks. */
  ghost predicate SingleLineTexts<T(!new)>(typeName: T -> string, show: T -> string)
  {
    forall v: T :: '\n' !in typeName(v) && '\n' !in show(v)
  }

  lemma SimpleLineIsOneLine<T(!new)>(isRoot: bool, parentIndex: int, isLeaf: bool, c: Option<T>,
                               typeName: T -> string, show: T -> string)
    requires SingleLineTexts(typeName, show)
    ensures Lines(SimpleLine(isRoot, parentIndex, isLeaf, c, typeName, show)) == 1
  {
    var prefix := if isRoot then "" else "[" + IntToString(parentIndex) + "] ";
    var text := Describe(c, typeName, show);
    assert '\n' !in prefix by {
      if !isRoot {
        var digits := IntToString(parentIndex);
        assert forall i | 0 <= i < |digits| :: digits[i] != '\n';
      }
    }
    assert '\n' !in text by {
      if c.Some? {
        var full := "(" + typeName(c.value) + "): " + show(c.value);
        assert '\n' !in full;
        assert forall i | 0 <= i < |Abbreviate(full)| :: Abbreviate(full)[i] != '\n';
      }
    }
    var body := prefix + Label(isRoot, isLeaf) + text;
    assert '\n' !in body;
    NoNewline(body);
    LinesAppend(body, "\n");
  }

  /** Every node line holds exactly one line break. */
  ghost predicate OneLineEach<T(!new)>(line: NodeLine<T>)
  {
    forall isRoot, parentIndex, isLeaf, c :: Lines(line(isRoot, parentIndex, isLeaf, c)) == 1
  }

  lemma SimpleLinesAreOneLine<T(!new)>(typeName: T -> string, show: T -> string)
    requires SingleLineTexts(typeName, show)
    ensures OneLineEach(SimpleLines(typeName, show))
  {
    forall isRoot, parentIndex, isLeaf, c
      ensures Lines(SimpleLines(typeName, show)(isRoot, parentIndex, isLeaf, c)) == 1
    {
      SimpleLineIsOneLine(isRoot, parentIndex, isLeaf, c, typeName, show);
    }
  }

  /** Rendering prints exactly one line per node of the subtree. */
  lemma {:induction false} RenderLines<T(!new)>(s: Shape<T>, isRoot: bool, parentIndex: int, line: NodeLine<T>)
    requires OneLineEach(line)
    ensures Lines(Render(s, isRoot, parentIndex, line)) == Size(s)
  {
    var rest := RenderKids(s.kids, |s.kids|, 1, 0, line);
    RenderKidsLines(s.kids, |s.kids|, 1, 0, line);
    LinesAppend(line(isRoot, parentIndex, s.kids == [], s.content), rest);
  }

  /** A rendering at any depth holds one line per node of the subtree. */
  lemma {:induction false} RenderAtLines<T(!new)>(s: Shape<T>, isRoot: bool, parentIndex: int,
                                            depth: nat, strikes: nat, isLast: bool, line: NodeLine<T>)
    requires OneLineEach(line)
    requires SafeStart(s, depth, strikes, isLast)
    ensures Lines(RenderAt(s, isRoot, parentIndex, depth, strikes, isLast, line)) == Size(s)
    decreases s, 1
  {
    var lead := Padding(depth, strikes) + (if isLast then LastChild else Junction) + Horizontal;
    var own := line(isRoot, parentIndex, s.kids == [], s.content);
    var rest := RenderKids(s.kids, |s.kids|, depth + 1, if isLast then strikes else strikes + 1, line);
    RenderKidsLines(s.kids, |s.kids|, depth + 1, if isLast then strikes else strikes + 1, line);
    LeadIsNotALine(depth, strikes, isLast);
    LinesAppend(lead, own);
    LinesAppend(lead + own, rest);
  }

  /** The first `n` children's renderings hold one line per node of those subtrees. */
  lemma {:induction false} RenderKidsLines<T(!new)>(ks: seq<Shape<T>>, n: nat, depth: nat, strikes: nat,
                                              line: NodeLine<T>)
    requires OneLineEach(line)
    requires n <= |ks|
    requires n == 0 || strikes < depth
    ensures Lines(RenderKids(ks, n, depth, strikes, line)) == KidsSize(ks, n)
    decreases ks, 0, n
  {
    if n > 0 {
      RenderKidsLines(ks, n - 1, depth, strikes, line);
      RenderAtLines(ks[n - 1], false, n - 1, depth, strikes, n - 1 == |ks| - 1, line);
      LinesAppend(RenderKids(ks, n - 1, depth, strikes, line),
                  RenderAt(ks[n - 1], false, n - 1, depth, strikes, n - 1 == |ks| - 1, line));
    }
  }

  lemma LeadIsNotALine(depth: nat, strikes: nat, isLast: bool)
    ensures Lines(Padding(depth, strikes) + (if isLast then LastChild else Junction) + Horizontal) == 0
  {
    var lead := Padding(depth, strikes) + (if isLast then LastChild else Junction) + Horizontal;
    forall k | 0 <= k < TabWidth * depth
      ensures lead[k] != '\n'
    {
      PaddingAt(depth, strikes, k);
    }
    assert forall k | 0 <= k < |lead| :: lead[k] != '\n';
    NoNewline(lead);
  }

}
