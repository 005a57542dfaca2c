/**
 * `jsonToTree`: renders a parsed JSON value as nested, open `<details>` blocks.
 * The recursion is split in two: `Build` computes the tree of labelled blocks
 * (a `RenderNode`), `Render` prints it as markup, and `JsonToTree` is the two
 * composed. Keys and string values are inserted into the markup without escaping,
 * exactly as the source does.
 */
module JsonTree {
  import opened Text

  /**
   * A parsed JSON value. An object's entries are in `Object.entries` order, the
   * runtime's property order (integer-like keys first, ascending, then the rest in
   * insertion order), which is taken as given here rather than derived from the text.
   */
  datatype Json =
    | Null
    | Bool(b: bool)
    | Num(text: string)  // the number's display text
    | Str(s: string)
    | Arr(items: seq<Json>)
    | Obj(entries: seq<Entry>)

  datatype Entry = Entry(key: string, value: Json)

  /** The four classes a scalar can be displayed with. */
  datatype ScalarKind = StringValue | NumberValue | BooleanValue | NullValue

  /** A block label: `[i]` for an array element, `key:` for an object entry. */
  datatype Label = Index(i: nat) | Key(k: string)

  datatype RenderNode = Leaf(kind: ScalarKind, display: string) | Branch(children: seq<Child>)

  datatype Child = Child(summary: Label, node: RenderNode)

  predicate IsScalar(v: Json) {
    !v.Arr? && !v.Obj?
  }

  /** The `typeof` dispatch: each scalar falls in exactly one class. */
  function Classify(v: Json): (k: ScalarKind)
    requires IsScalar(v)
    ensures k == StringValue <==> v.Str?
    ensures k == NumberValue <==> v.Num?
    ensures k == BooleanValue <==> v.Bool?
    ensures k == NullValue <==> v.Null?
  {
    match v
    case Str(_) => StringValue
    case Num(_) => NumberValue
    case Bool(_) => BooleanValue
    case Null => NullValue
  }

  function ClassName(k: ScalarKind): string {
    match k
    case StringValue => "value-string"
    case NumberValue => "value-number"
    case BooleanValue => "value-boolean"
    case NullValue => "value-null"
  }

  /** Strings are shown in double quotes; other scalars as their own text. */
  function Display(v: Json): string
    requires IsScalar(v)
  {
    match v
    case Str(s) => "\"" + s + "\""
    case Num(t) => t
    case Bool(b) => if b then "true" else "false"
    case Null => "null"
  }

  /** The tree of blocks `jsonToTree` prints for `v`. */
  function Build(v: Json): RenderNode
    decreases v
  {
    match v
    case Arr(items) =>
      Branch(seq(|items|, i requires 0 <= i < |items| => Child(Index(i), Build(items[i]))))
    case Obj(entries) =>
      Branch(seq(|entries|, i requires 0 <= i < |entries| =>
        Child(Key(entries[i].key), Build(entries[i].value))))
    case _ => Leaf(Classify(v), Display(v))
  }

  function LabelHtml(l: Label): string {
    match l
    case Index(i) => "<span class=\"bracket\">[" + NatToString(i) + "]</span>"
    case Key(k) => "<span class=\"key\">" + k + "</span>:"
  }

  /** One open `<details>` block, with the template literal's line breaks and indentation. */
  function Block(summary: Label, body: string): string {
    "\n      <details open>\n        <summary>" + LabelHtml(summary) + "</summary>\n        "
      + body + "\n      </details>\n    "
  }

  function Render(n: RenderNode): string
    decreases n
  {
    match n
    case Leaf(k, d) => "<div class=\"primitive " + ClassName(k) + "\">" + d + "</div>"
    case Branch(cs) =>
      "<div>" + Concat(seq(|cs|, i requires 0 <= i < |cs| => Block(cs[i].summary, Render(cs[i].node)))) + "</div>"
  }

  /** `jsonToTree(data)`. */
  function JsonToTree(v: Json): string {
    Render(Build(v))
  }

  // ----- Structure of the rendered tree -----

  function Labels(n: RenderNode): seq<Label> {
    match n
    case Leaf(_, _) => []
    case Branch(cs) => seq(|cs|, i requires 0 <= i < |cs| => cs[i].summary)
  }

  /** An array gives one block per element, labelled `[0]`, `[1]`, ... in index order. */
  lemma ArrayBlocks(items: seq<Json>)
    ensures Build(Arr(items)).Branch?
    ensures Labels(Build(Arr(items))) == seq(|items|, i requires 0 <= i < |items| => Index(i))
    ensures forall i :: 0 <= i < |items| ==> Build(Arr(items)).children[i].node == Build(items[i])
  {
  }

  /** An object gives one block per entry, in entry order; keys are never re-sorted. */
  lemma ObjectBlocks(entries: seq<Entry>)
    ensures Build(Obj(entries)).Branch?
    ensures Labels(Build(Obj(entries))) == seq(|entries|, i requires 0 <= i < |entries| => Key(entries[i].key))
    ensures forall i :: 0 <= i < |entries| ==> Build(Obj(entries)).children[i].node == Build(entries[i].value)
  {
  }

  /** An empty array and an empty object both render as `<div></div>`, with no block. */
  lemma EmptyContainers()
    ensures JsonToTree(Arr([])) == "<div></div>"
    ensures JsonToTree(Obj([])) == "<div></div>"
  {
    assert Build(Arr([])) == Branch([]);
    assert Build(Obj([])) == Branch([]);
  }

  /** A string scalar is shown between double quotes, inserted verbatim (no escaping). */
  lemma StringLeafVerbatim(s: string)
    ensures JsonToTree(Str(s)) == "<div class=\"primitive value-string\">\"" + s + "\"</div>"
  {
  }

  /** A key is inserted verbatim as the label of its block. */
  lemma KeyLabelVerbatim(k: string, v: Json)
    ensures JsonToTree(Obj([Entry(k, v)]))
         == "<div>" + Block(Key(k), JsonToTree(v)) + "</div>"
    ensures LabelHtml(Key(k)) == "<span class=\"key\">" + k + "</span>:"
  {
    var cs := Build(Obj([Entry(k, v)])).children;
    assert |cs| == 1 && cs[0] == Child(Key(k), Build(v));
    var parts := seq(|cs|, i requires 0 <= i < |cs| => Block(cs[i].summary, Render(cs[i].node)));
    assert parts == [Block(Key(k), JsonToTree(v))];
    assert Concat(parts) == parts[0] + Concat(parts[1..]);
  }

  // ----- Counting leaves -----

  function Sum(xs: seq<nat>): nat {
    if |xs| == 0 then 0 else xs[0] + Sum(xs[1..])
  }

  /** The number of scalar values reachable in `v`. */
  function ScalarCount(v: Json): nat
    decreases v
  {
    match v
    case Arr(items) =>
      Sum(seq(|items|, i requires 0 <= i < |items| => ScalarCount(items[i])))
    case Obj(entries) =>
      Sum(seq(|entries|, i requires 0 <= i < |entries| => ScalarCount(entries[i].value)))
    case _ => 1
  }

  /** The number of `primitive` divs in a rendered tree. */
  function LeafCount(n: RenderNode): nat
    decreases n
  {
    match n
    case Leaf(_, _) => 1
    case Branch(cs) => Sum(seq(|cs|, i requires 0 <= i < |cs| => LeafCount(cs[i].node)))
  }

  /**
   * The block tree has one leaf per scalar value in the input, at every depth. This
   * counts leaves of the tree, not `primitive` divs in the markup: unescaped text
   * can hold more of those.
   */
  lemma {:induction false} LeafCountIsScalarCount(v: Json)
    ensures LeafCount(Build(v)) == ScalarCount(v)
    decreases v
  {
    match v
    case Arr(items) =>
      var cs := Build(v).children;
      forall i | 0 <= i < |items| ensures LeafCount(cs[i].node) == ScalarCount(items[i]) {
        LeafCountIsScalarCount(items[i]);
      }
      assert seq(|cs|, i requires 0 <= i < |cs| => LeafCount(cs[i].node))
          == seq(|items|, i requires 0 <= i < |items| => ScalarCount(items[i]));
    case Obj(entries) =>
      var cs := Build(v).children;
      forall i | 0 <= i < |entries| ensures LeafCount(cs[i].node) == ScalarCount(entries[i].value) {
        assert entries[i] in entries;
        LeafCountIsScalarCount(entries[i].value);
      }
      assert seq(|cs|, i requires 0 <= i < |cs| => LeafCount(cs[i].node))
          == seq(|entries|, i requires 0 <= i < |entries| => ScalarCount(entries[i].value));
    case _ =>
  }

  // ----- What the tree keeps of the input -----

  /**
   * Reads a value back from a rendered tree. A branch whose first label is a key
   * is an object, any other branch an array; a leaf is read by its class.
   */
  function Unbuild(n: RenderNode): Json
    decreases n
  {
    match n
    case Leaf(k, d) =>
      (match k
       case StringValue => Str(if |d| >= 2 then d[1..|d| - 1] else d)
       case NumberValue => Num(d)
       case BooleanValue => Bool(d == "true")
       case NullValue => Null)
    case Branch(cs) =>
      if |cs| > 0 && cs[0].summary.Key? then
        Obj(seq(|cs|, i requires 0 <= i < |cs| => Entry(KeyText(cs[i].summary), Unbuild(cs[i].node))))
      else
        Arr(seq(|cs|, i requires 0 <= i < |cs| => Unbuild(cs[i].node)))
  }

  function KeyText(l: Label): string {
    if l.Key? then l.k else ""
  }

  /** `v` with every empty object replaced by an empty array, at every depth. */
  function Canon(v: Json): Json
    decreases v
  {
    match v
    case Arr(items) => Arr(seq(|items|, i requires 0 <= i < |items| => Canon(items[i])))
    case Obj(entries) =>
      if |entries| == 0 then Arr([])
      else Obj(seq(|entries|, i requires 0 <= i < |entries| =>
        Entry(entries[i].key, Canon(entries[i].value))))
    case _ => v
  }

  /**
   * The rendered tree loses nothing but the difference between an empty array
   * and an empty object: every scalar, its class, every key and every order
   * can be read back.
   */
  lemma {:induction false} UnbuildBuild(v: Json)
    ensures Unbuild(Build(v)) == Canon(v)
    decreases v
  {
    match v
    case Arr(items) =>
      var cs := Build(v).children;
      forall i | 0 <= i < |items| ensures Unbuild(cs[i].node) == Canon(items[i]) {
        UnbuildBuild(items[i]);
      }
      assert seq(|cs|, i requires 0 <= i < |cs| => Unbuild(cs[i].node))
          == seq(|items|, i requires 0 <= i < |items| => Canon(items[i]));
    case Obj(entries) =>
      var cs := Build(v).children;
      forall i | 0 <= i < |entries|
        ensures Entry(KeyText(cs[i].summary), Unbuild(cs[i].node)) == Entry(entries[i].key, Canon(entries[i].value))
      {
        assert entries[i] in entries;
        UnbuildBuild(entries[i].value);
      }
      if |entries| > 0 {
        assert seq(|cs|, i requires 0 <= i < |cs| => Entry(KeyText(cs[i].summary), Unbuild(cs[i].node)))
            == seq(|entries|, i requires 0 <= i < |entries| => Entry(entries[i].key, Canon(entries[i].value)));
      }
    case Str(s) =>
      var d := "\"" + s + "\"";
      assert d[1..|d| - 1] == s;
    case _ =>
  }

  /** The one thing lost: an empty array and an empty object give the same tree. */
  lemma EmptyArrayAndObjectAlike()
    ensures Build(Arr([])) == Build(Obj([]))
    ensures Arr([]) != Obj([])
  {
  }
}
