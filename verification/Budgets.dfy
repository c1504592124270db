/** The byte, count and depth budgets of a snapshot, as the validator meters them while it checks and as the
    builder meters them while nodes are added. */
module Budgets {
  import opened Options
  import opened Counters
  import opened Snapshot

  // ---------------------------------------------------------------- what a node uses

  function TextSum(texts: seq<Bytes>): nat {
    if texts == [] then 0 else TextSum(texts[..|texts| - 1]) + |texts[|texts| - 1]|
  }

  /** Values in an extension, itself included. */
  function Count(v: ExtensionValue): nat {
    1 + if v.ListValue? then CountAll(v.items) else 0
  }

  function CountAll(vs: seq<ExtensionValue>): nat {
    if vs == [] then 0 else CountAll(vs[..|vs| - 1]) + Count(vs[|vs| - 1])
  }

  function ValueText(v: ExtensionValue): nat {
    if v.Utf8Value? then |v.text| else if v.ListValue? then ValueTextAll(v.items) else 0
  }

  function ValueTextAll(vs: seq<ExtensionValue>): nat {
    if vs == [] then 0 else ValueTextAll(vs[..|vs| - 1]) + ValueText(vs[|vs| - 1])
  }

  predicate Shallow(v: ExtensionValue, depth: nat, l: Limits) {
    && depth <= l.depth
    && (v.ListValue? ==>
          |v.items| <= l.listItems && forall i | 0 <= i < |v.items| :: Shallow(v.items[i], depth + 1, l))
  }

  predicate Known(v: ExtensionValue) {
    !v.UnknownValue? && (v.ListValue? ==> forall i | 0 <= i < |v.items| :: Known(v.items[i]))
  }

  predicate ValidScalars(v: ExtensionValue, w: World) {
    match v
    case DoubleValue(double) => w.finite(double)
    case Utf8Value(text) => w.validUtf8(text)
    case ReferenceValue(node) => node != 0
    case ListValue(items) => forall i | 0 <= i < |items| :: ValidScalars(items[i], w)
    case _ => true
  }

  /** No value of an unknown kind, no double that is not finite, no reference to nothing. */
  predicate WellFormed(v: ExtensionValue, w: World) {
    match v
    case DoubleValue(double) => w.finite(double)
    case ReferenceValue(node) => node != 0
    case UnknownValue => false
    case ListValue(items) => forall i | 0 <= i < |items| :: WellFormed(items[i], w)
    case _ => true
  }

  predicate WellEncoded(v: ExtensionValue, w: World) {
    match v
    case Utf8Value(text) => w.validUtf8(text)
    case ListValue(items) => forall i | 0 <= i < |items| :: WellEncoded(items[i], w)
    case _ => true
  }

  /** The verdict on a value that is neither text nor a list. */
  function ScalarIssue(v: ExtensionValue, w: World): Issue {
    match v
    case DoubleValue(double) => if w.finite(double) then NoIssue else InvalidExtension
    case ReferenceValue(node) => if node != 0 then NoIssue else InvalidExtension
    case UnknownValue => InvalidExtension
    case _ => NoIssue
  }

  function BasicTexts(n: Node): seq<Bytes> {
    [n.name, n.description, n.helpText, n.value, n.language, n.accessKey, n.keyboardShortcut]
  }

  function ExtensionText(e: Extension): nat {
    |e.namespaceName| + |e.name| + ValueText(e.value)
  }

  function ExtensionsText(es: seq<Extension>): nat {
    if es == [] then 0 else ExtensionsText(es[..|es| - 1]) + ExtensionText(es[|es| - 1])
  }

  function ExtensionsCount(es: seq<Extension>): nat {
    if es == [] then 0 else ExtensionsCount(es[..|es| - 1]) + Count(es[|es| - 1].value)
  }

  function AnnotationsText(xs: seq<TextAnnotation>): nat {
    if xs == [] then 0 else AnnotationsText(xs[..|xs| - 1]) + |xs[|xs| - 1].value|
  }

  function ContentText(t: Option<TextContent>): nat {
    if t.Some? then |t.value.utf8| + |t.value.language| + AnnotationsText(t.value.annotations) else 0
  }

  function TargetSum(rs: seq<Relation>): nat {
    if rs == [] then 0 else TargetSum(rs[..|rs| - 1]) + |rs[|rs| - 1].targets|
  }

  /** All UTF-8 bytes of one node. */
  function NodeText(n: Node): nat {
    TextSum(BasicTexts(n)) + ExtensionsText(n.extensions) + ContentText(n.text)
  }

  function TotalText(nodes: seq<Node>): nat {
    if nodes == [] then 0 else TotalText(nodes[..|nodes| - 1]) + NodeText(nodes[|nodes| - 1])
  }

  predicate ExtensionsWithin(es: seq<Extension>, l: Limits) {
    ExtensionsCount(es) <= l.values && forall i | 0 <= i < |es| :: Shallow(es[i].value, 0, l)
  }

  predicate ContentWithin(t: Option<TextContent>, l: Limits) {
    t.Some? ==>
      |t.value.annotations| <= l.annotations && |t.value.fragments| <= l.fragments && |t.value.selection| <= l.textSelections
  }

  predicate ListsWithin(n: Node, l: Limits) {
    |n.children| <= l.children && |n.relations| <= l.relations && |n.extensions| <= l.extensions
  }

  predicate SelectionWithin(n: Node, l: Limits) {
    n.selection.Some? ==> |n.selection.value.selectedNodes| <= l.nodes
  }

  /** Everything about one node that a limit bounds. */
  predicate NodeWithin(n: Node, l: Limits) {
    && NodeText(n) <= l.nodeText && ListsWithin(n, l) && TargetSum(n.relations) <= l.targets
    && ExtensionsWithin(n.extensions, l) && SelectionWithin(n, l) && ContentWithin(n.text, l)
  }

  predicate KnownExtensions(es: seq<Extension>) {
    forall i | 0 <= i < |es| :: Known(es[i].value)
  }

  ghost predicate AllWithin(nodes: seq<Node>, l: Limits) {
    && |nodes| <= l.nodes && TotalText(nodes) <= l.totalText
    && forall i | 0 <= i < |nodes| :: NodeWithin(nodes[i], l)
  }

  // ---------------------------------------------------------------- sums over prefixes

  lemma {:induction false} CountPrefix(vs: seq<ExtensionValue>, k: nat)
    requires k < |vs|
    ensures CountAll(vs[..k + 1]) == CountAll(vs[..k]) + Count(vs[k])
    ensures ValueTextAll(vs[..k + 1]) == ValueTextAll(vs[..k]) + ValueText(vs[k])
    ensures CountAll(vs[..k + 1]) <= CountAll(vs) && ValueTextAll(vs[..k + 1]) <= ValueTextAll(vs)
    decreases |vs| - k
  {
    assert vs[..k + 1][..k] == vs[..k];
    if k + 1 < |vs| {
      CountPrefix(vs, k + 1);
    } else {
      assert vs[..k + 1] == vs;
    }
  }

  lemma {:induction false} ExtensionsPrefix(es: seq<Extension>, k: nat)
    requires k < |es|
    ensures ExtensionsText(es[..k + 1]) == ExtensionsText(es[..k]) + ExtensionText(es[k])
    ensures ExtensionsCount(es[..k + 1]) == ExtensionsCount(es[..k]) + Count(es[k].value)
    ensures ExtensionsText(es[..k + 1]) <= ExtensionsText(es) && ExtensionsCount(es[..k + 1]) <= ExtensionsCount(es)
    decreases |es| - k
  {
    assert es[..k + 1][..k] == es[..k];
    if k + 1 < |es| {
      ExtensionsPrefix(es, k + 1);
    } else {
      assert es[..k + 1] == es;
    }
  }

  lemma {:induction false} AnnotationsPrefix(xs: seq<TextAnnotation>, k: nat)
    requires k < |xs|
    ensures AnnotationsText(xs[..k + 1]) == AnnotationsText(xs[..k]) + |xs[k].value|
    ensures AnnotationsText(xs[..k + 1]) <= AnnotationsText(xs)
    decreases |xs| - k
  {
    assert xs[..k + 1][..k] == xs[..k];
    if k + 1 < |xs| {
      AnnotationsPrefix(xs, k + 1);
    } else {
      assert xs[..k + 1] == xs;
    }
  }

  lemma {:induction false} TextPrefix(ts: seq<Bytes>, k: nat)
    requires k < |ts|
    ensures TextSum(ts[..k + 1]) == TextSum(ts[..k]) + |ts[k]| && TextSum(ts[..k + 1]) <= TextSum(ts)
    decreases |ts| - k
  {
    assert ts[..k + 1][..k] == ts[..k];
    if k + 1 < |ts| {
      TextPrefix(ts, k + 1);
    } else {
      assert ts[..k + 1] == ts;
    }
  }

  lemma {:induction false} TargetPrefix(rs: seq<Relation>, k: nat)
    requires k < |rs|
    ensures TargetSum(rs[..k + 1]) == TargetSum(rs[..k]) + |rs[k].targets| && TargetSum(rs[..k + 1]) <= TargetSum(rs)
    decreases |rs| - k
  {
    assert rs[..k + 1][..k] == rs[..k];
    if k + 1 < |rs| {
      TargetPrefix(rs, k + 1);
    } else {
      assert rs[..k + 1] == rs;
    }
  }

  lemma {:induction false} TotalPrefix(nodes: seq<Node>, k: nat)
    requires k < |nodes|
    ensures TotalText(nodes[..k + 1]) == TotalText(nodes[..k]) + NodeText(nodes[k])
    ensures TotalText(nodes[..k + 1]) <= TotalText(nodes)
    decreases |nodes| - k
  {
    hide NodeText;
    assert nodes[..k + 1][..k] == nodes[..k];
    if k + 1 < |nodes| {
      TotalPrefix(nodes, k + 1);
    } else {
      assert nodes[..k + 1] == nodes;
    }
  }

  // ---------------------------------------------------------------- the validator's meter

  lemma NoValues(vs: seq<ExtensionValue>)
    ensures CountAll(vs[..0]) == 0 && ValueTextAll(vs[..0]) == 0
  {
  }

  /** One level of a value. */
  lemma Unfolded(v: ExtensionValue, depth: nat, l: Limits, w: World)
    ensures v.ListValue? ==>
              && Count(v) == 1 + CountAll(v.items) && ValueText(v) == ValueTextAll(v.items)
              && (Shallow(v, depth, l) <==>
                    depth <= l.depth && |v.items| <= l.listItems && forall i | 0 <= i < |v.items| :: Shallow(v.items[i], depth + 1, l))
              && (Known(v) <==> forall i | 0 <= i < |v.items| :: Known(v.items[i]))
              && (ValidScalars(v, w) <==> forall i | 0 <= i < |v.items| :: ValidScalars(v.items[i], w))
              && (WellFormed(v, w) <==> forall i | 0 <= i < |v.items| :: WellFormed(v.items[i], w))
              && (WellEncoded(v, w) <==> forall i | 0 <= i < |v.items| :: WellEncoded(v.items[i], w))
    ensures !v.ListValue? ==>
              && Count(v) == 1 && ValueText(v) == (if v.Utf8Value? then |v.text| else 0) && (Shallow(v, depth, l) <==> depth <= l.depth)
              && (v.Utf8Value? ==> Known(v) && (ValidScalars(v, w) <==> w.validUtf8(v.text)) && (WellEncoded(v, w) <==> w.validUtf8(v.text)))
              && (!v.Utf8Value? ==> (Known(v) && ValidScalars(v, w) <==> ScalarIssue(v, w) == NoIssue))
              && (!v.Utf8Value? ==> (ScalarIssue(v, w) != NoIssue <==> ScalarIssue(v, w) == InvalidExtension && !WellFormed(v, w)))
  {
  }

  /** The counters of the validator: bytes so far, bytes of the current node, extension values of the current node. */
  class Budget {
    const limits: Limits
    const world: World
    var bytes: nat
    var nodeBytes: nat
    var extensionValues: nat

    constructor (limits: Limits, world: World)
      requires ValidLimits(limits)
      ensures this.limits == limits && this.world == world && bytes == 0 && nodeBytes == 0 && extensionValues == 0 && Valid()
    {
      this.limits, this.world := limits, world;
      bytes, nodeBytes, extensionValues := 0, 0, 0;
    }

    ghost predicate Valid()
      reads this
    {
      && ValidLimits(limits)
      && bytes <= limits.totalText && nodeBytes <= limits.nodeText && extensionValues <= limits.values
    }

    ghost predicate Room(text: nat)
      reads this
    {
      nodeBytes + text <= limits.nodeText && bytes + text <= limits.totalText
    }

    method NextNode()
      requires Valid()
      modifies this
      ensures Valid() && bytes == old(bytes) && nodeBytes == 0 && extensionValues == 0
    {
      nodeBytes, extensionValues := 0, 0;
    }

    method String(value: Bytes) returns (issue: Issue)
      requires Valid()
      modifies this
      ensures Valid() && extensionValues == old(extensionValues)
      ensures issue == NoIssue <==> old(Room(|value|)) && world.validUtf8(value)
      ensures issue == LimitExceeded <==> !old(Room(|value|))
      ensures issue in {NoIssue, LimitExceeded, InvalidText}
      ensures issue == NoIssue ==> nodeBytes == old(nodeBytes) + |value| && bytes == old(bytes) + |value|
    {
      if |value| > limits.nodeText || |value| > limits.totalText || Add64(nodeBytes, |value|) > limits.nodeText ||
         Add64(bytes, |value|) > limits.totalText
      {
        return LimitExceeded;
      }
      if !world.validUtf8(value) {
        return InvalidText;
      }
      nodeBytes := Add64(nodeBytes, |value|);
      bytes := Add64(bytes, |value|);
      return NoIssue;
    }

    method Strings(values: seq<Bytes>) returns (issue: Issue)
      requires Valid()
      modifies this
      ensures Valid() && extensionValues == old(extensionValues)
      ensures issue == NoIssue <==>
                old(Room(TextSum(values))) && forall i | 0 <= i < |values| :: world.validUtf8(values[i])
      ensures issue == LimitExceeded ==> !old(Room(TextSum(values)))
      ensures issue == NoIssue ==> nodeBytes == old(nodeBytes) + TextSum(values) && bytes == old(bytes) + TextSum(values)
      ensures issue in {NoIssue, LimitExceeded, InvalidText}
      ensures issue == InvalidText ==> exists i :: 0 <= i < |values| && !world.validUtf8(values[i])
    {
      for k := 0 to |values|
        invariant Valid() && extensionValues == old(extensionValues)
        invariant nodeBytes == old(nodeBytes) + TextSum(values[..k]) && bytes == old(bytes) + TextSum(values[..k])
        invariant forall i | 0 <= i < k :: world.validUtf8(values[i])
      {
        TextPrefix(values, k);
        issue := String(values[k]);
        if issue != NoIssue {
          return;
        }
      }
      assert values[..|values|] == values;
      return NoIssue;
    }

    ghost predicate ValueRoom(v: ExtensionValue, depth: nat)
      reads this
    {
      Shallow(v, depth, limits) && extensionValues + Count(v) <= limits.values && Room(ValueText(v))
    }

    method Extension(v: ExtensionValue, depth: nat) returns (issue: Issue)
      requires Valid()
      modifies this
      ensures Valid() || issue != NoIssue
      ensures issue == NoIssue <==> old(ValueRoom(v, depth)) && Known(v) && ValidScalars(v, world)
      ensures issue == LimitExceeded ==> !old(ValueRoom(v, depth))
      ensures issue == NoIssue ==>
                && extensionValues == old(extensionValues) + Count(v)
                && nodeBytes == old(nodeBytes) + ValueText(v) && bytes == old(bytes) + ValueText(v)
      ensures issue in {NoIssue, LimitExceeded, InvalidText, InvalidExtension}
      ensures issue == InvalidText ==> !WellEncoded(v, world)
      ensures issue == InvalidExtension ==> !WellFormed(v, world)
      decreases v
    {
      hide Shallow, Known, ValidScalars, WellFormed, WellEncoded, Count, CountAll, ValueText, ValueTextAll;
      Unfolded(v, depth, limits, world);
      extensionValues := Add64(extensionValues, 1);
      if extensionValues > limits.values || depth > limits.depth {
        return LimitExceeded;
      }
      if v.Utf8Value? {
        issue := String(v.text);
      } else if v.ListValue? {
        if |v.items| > limits.listItems {
          return LimitExceeded;
        }
        issue := ExtensionItems(v.items, depth + 1);
      } else {
        issue := ScalarIssue(v, world);
      }
    }

    method ExtensionItems(items: seq<ExtensionValue>, depth: nat) returns (issue: Issue)
      requires Valid()
      modifies this
      ensures Valid() || issue != NoIssue
      ensures issue == NoIssue <==>
                && old(extensionValues) + CountAll(items) <= limits.values && old(Room(ValueTextAll(items)))
                && forall i | 0 <= i < |items| :: Shallow(items[i], depth, limits) && Known(items[i]) && ValidScalars(items[i], world)
      ensures issue == LimitExceeded ==>
                !(&& old(extensionValues) + CountAll(items) <= limits.values && old(Room(ValueTextAll(items)))
                  && forall i | 0 <= i < |items| :: Shallow(items[i], depth, limits))
      ensures issue == NoIssue ==>
                && extensionValues == old(extensionValues) + CountAll(items)
                && nodeBytes == old(nodeBytes) + ValueTextAll(items) && bytes == old(bytes) + ValueTextAll(items)
      ensures issue in {NoIssue, LimitExceeded, InvalidText, InvalidExtension}
      ensures issue == InvalidText ==> exists i :: 0 <= i < |items| && !WellEncoded(items[i], world)
      ensures issue == InvalidExtension ==> exists i :: 0 <= i < |items| && !WellFormed(items[i], world)
      decreases items, 0
    {
      hide Shallow, Known, ValidScalars, WellFormed, WellEncoded, Count, ValueText, CountAll, ValueTextAll, ValidLimits;
      NoValues(items);
      for k := 0 to |items|
        invariant Valid() && extensionValues == old(extensionValues) + CountAll(items[..k])
        invariant nodeBytes == old(nodeBytes) + ValueTextAll(items[..k]) && bytes == old(bytes) + ValueTextAll(items[..k])
        invariant forall i | 0 <= i < k :: Shallow(items[i], depth, limits) && Known(items[i]) && ValidScalars(items[i], world)
      {
        CountPrefix(items, k);
        issue := Extension(items[k], depth);
        if issue != NoIssue {
          return;
        }
      }
      assert items[..|items|] == items;
      return NoIssue;
    }
  }

  // ---------------------------------------------------------------- the builder's meter

  /** The counters of `boundedNode` for the one node it looks at. */
  class NodeMeter {
    const limits: Limits
    var nodeBytes: nat
    var values: nat

    constructor (limits: Limits)
      requires ValidLimits(limits)
      ensures this.limits == limits && nodeBytes == 0 && values == 0 && Valid()
    {
      this.limits := limits;
      nodeBytes, values := 0, 0;
    }

    ghost predicate Valid()
      reads this
    {
      ValidLimits(limits) && nodeBytes <= limits.nodeText && values <= limits.values
    }

    method Text(text: Bytes) returns (ok: bool)
      requires Valid()
      modifies this
      ensures values == old(values) && (ok ==> Valid())
      ensures ok <==> old(nodeBytes) + |text| <= limits.nodeText
      ensures ok ==> nodeBytes == old(nodeBytes) + |text|
    {
      if |text| > limits.nodeText {
        return false;
      }
      nodeBytes := Add64(nodeBytes, |text|);
      return nodeBytes <= limits.nodeText;
    }

    method Texts(texts: seq<Bytes>) returns (ok: bool)
      requires Valid()
      modifies this
      ensures values == old(values) && (ok ==> Valid())
      ensures ok <==> old(nodeBytes) + TextSum(texts) <= limits.nodeText
      ensures ok ==> nodeBytes == old(nodeBytes) + TextSum(texts)
    {
      for k := 0 to |texts|
        invariant Valid() && values == old(values) && nodeBytes == old(nodeBytes) + TextSum(texts[..k])
      {
        TextPrefix(texts, k);
        ok := Text(texts[k]);
        if !ok {
          return;
        }
      }
      assert texts[..|texts|] == texts;
      return true;
    }

    ghost predicate ValueRoom(v: ExtensionValue, depth: nat)
      reads this
    {
      Shallow(v, depth, limits) && values + Count(v) <= limits.values && nodeBytes + ValueText(v) <= limits.nodeText
    }

    method Extension(v: ExtensionValue, depth: nat) returns (ok: bool)
      requires Valid()
      modifies this
      ensures ok <==> old(ValueRoom(v, depth)) && Known(v)
      ensures ok ==> Valid() && values == old(values) + Count(v) && nodeBytes == old(nodeBytes) + ValueText(v)
      decreases v
    {
      if depth > limits.depth {
        return false;
      }
      values := Add64(values, 1);
      if values > limits.values {
        return false;
      }
      if v.Utf8Value? {
        ok := Text(v.text);
        return;
      }
      if v.ListValue? {
        if |v.items| > limits.listItems {
          return false;
        }
        ok := Items(v.items, depth + 1);
        return;
      }
      return !v.UnknownValue?;
    }

    method Items(items: seq<ExtensionValue>, depth: nat) returns (ok: bool)
      requires Valid()
      modifies this
      ensures ok <==>
                && old(values) + CountAll(items) <= limits.values && old(nodeBytes) + ValueTextAll(items) <= limits.nodeText
                && forall i | 0 <= i < |items| :: Shallow(items[i], depth, limits) && Known(items[i])
      ensures ok ==> Valid() && values == old(values) + CountAll(items) && nodeBytes == old(nodeBytes) + ValueTextAll(items)
      decreases items, 0
    {
      hide Shallow, Known, Count, ValueText;
      for k := 0 to |items|
        invariant Valid() && values == old(values) + CountAll(items[..k])
        invariant nodeBytes == old(nodeBytes) + ValueTextAll(items[..k])
        invariant forall i | 0 <= i < k :: Shallow(items[i], depth, limits) && Known(items[i])
      {
        CountPrefix(items, k);
        ok := Extension(items[k], depth);
        if !ok {
          return;
        }
      }
      assert items[..|items|] == items;
      return true;
    }

    method Extensions(es: seq<Extension>) returns (ok: bool)
      requires Valid() && values == 0
      modifies this
      ensures ok <==> old(nodeBytes) + ExtensionsText(es) <= limits.nodeText && ExtensionsWithin(es, limits) && KnownExtensions(es)
      ensures ok ==> Valid() && nodeBytes == old(nodeBytes) + ExtensionsText(es)
    {
      hide Shallow, Known, Count, ValueText;
      for k := 0 to |es|
        invariant Valid() && values == ExtensionsCount(es[..k]) && nodeBytes == old(nodeBytes) + ExtensionsText(es[..k])
        invariant forall i | 0 <= i < k :: Shallow(es[i].value, 0, limits) && Known(es[i].value)
      {
        ExtensionsPrefix(es, k);
        ok := Text(es[k].namespaceName);
        if ok {
          ok := Text(es[k].name);
        }
        if ok {
          ok := Extension(es[k].value, 0);
        }
        if !ok {
          return;
        }
      }
      assert es[..|es|] == es;
      return true;
    }

    method Content(t: TextContent) returns (ok: bool)
      requires Valid()
      modifies this
      ensures ok <==> old(nodeBytes) + ContentText(Some(t)) <= limits.nodeText && ContentWithin(Some(t), limits)
      ensures ok ==> Valid() && nodeBytes == old(nodeBytes) + ContentText(Some(t))
    {
      if |t.annotations| > limits.annotations || |t.fragments| > limits.fragments || |t.selection| > limits.textSelections {
        return false;
      }
      ok := Text(t.utf8);
      if ok {
        ok := Text(t.language);
      }
      if !ok {
        return;
      }
      for k := 0 to |t.annotations|
        invariant Valid()
        invariant nodeBytes == old(nodeBytes) + |t.utf8| + |t.language| + AnnotationsText(t.annotations[..k])
      {
        AnnotationsPrefix(t.annotations, k);
        ok := Text(t.annotations[k].value);
        if !ok {
          return;
        }
      }
      assert t.annotations[..|t.annotations|] == t.annotations;
      return true;
    }
  }

  method CountTargets(rs: seq<Relation>, l: Limits) returns (ok: bool)
    requires ValidLimits(l)
    ensures ok <==> TargetSum(rs) <= l.targets
  {
    var targets := 0;
    for k := 0 to |rs|
      invariant targets == TargetSum(rs[..k]) <= l.targets
    {
      TargetPrefix(rs, k);
      targets := Add64(targets, |rs[k].targets|);
      if targets > l.targets {
        return false;
      }
    }
    assert rs[..|rs|] == rs;
    return true;
  }

  /** `boundedNode`: accepts a node exactly when it and the running total are within the limits. */
  method BoundedNode(n: Node, l: Limits, bytes: nat) returns (ok: bool, total: nat)
    requires ValidLimits(l) && bytes <= l.totalText
    ensures ok <==> NodeWithin(n, l) && KnownExtensions(n.extensions) && bytes + NodeText(n) <= l.totalText
    ensures ok ==> total == bytes + NodeText(n)
  {
    var meter := new NodeMeter(l);
    total := bytes;
    ok := meter.Texts(BasicTexts(n));
    if !ok || |n.children| > l.children || |n.relations| > l.relations || |n.extensions| > l.extensions {
      return false, total;
    }
    ok := CountTargets(n.relations, l);
    if !ok {
      return;
    }
    ok := meter.Extensions(n.extensions);
    if !ok || (n.selection.Some? && |n.selection.value.selectedNodes| > l.nodes) {
      return false, total;
    }
    if n.text.Some? {
      ok := meter.Content(n.text.value);
      if !ok {
        return;
      }
    }
    total := Add64(bytes, meter.nodeBytes);
    return total <= l.totalText, total;
  }
}
