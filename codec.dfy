/** The template codec: `getInitialValue` turns a string with `${name}`
    placeholders into the children of one paragraph, alternating text and
    variable nodes; `getCompiledText` writes that paragraph back. */
module Codec {
  import Catalog

  /** A child of the paragraph: a text leaf, or a variable node (`getNode`),
      whose single empty text child is implied. */
  datatype Segment = Text(s: string) | Var(name: string)

  /** The children of the single paragraph. */
  type Document = seq<Segment>

  /** The decoder's lookup, `filter(name)[0] === name`: the FIRST hit of the
      filter must be the name itself; an empty hit list never resolves. */
  predicate Resolves(filter: string -> seq<string>, name: string)
    ensures Resolves(filter, name) ==> name in filter(name)
  {
    |filter(name)| > 0 && filter(name)[0] == name
  }

  /** The filter the component hands to the decoder, `filterOp(options, size)`. */
  function CatalogFilter(options: seq<string>, size: nat): string -> seq<string> {
    search => Catalog.Filter(options, size, search)
  }

  /** Text and variable nodes strictly alternate, starting and ending with a
      text node, so there is one more text node than variable nodes. */
  predicate Alternating(doc: Document) {
    |doc| % 2 == 1 && forall k :: 0 <= k < |doc| ==> (doc[k].Text? <==> k % 2 == 0)
  }

  /** Every variable node names something the filter resolves. */
  predicate VarsResolve(doc: Document, filter: string -> seq<string>) {
    forall k :: 0 <= k < |doc| && doc[k].Var? ==> Resolves(filter, doc[k].name)
  }

  function CountVars(doc: Document): nat {
    if doc == [] then 0 else (if doc[0].Var? then 1 else 0) + CountVars(doc[1..])
  }

  /** An alternating document has one more text node than variable nodes. */
  lemma {:induction false} AlternatingCounts(doc: Document)
    requires Alternating(doc)
    ensures |doc| == 2 * CountVars(doc) + 1
    ensures |doc| - CountVars(doc) == CountVars(doc) + 1
  {
    if |doc| > 1 {
      var d := doc[2..];
      assert forall k :: 0 <= k < |d| ==> d[k] == doc[k + 2];
      assert Alternating(d);
      AlternatingCounts(d);
      assert doc[1..][1..] == d;
    }
  }

  // ---------------------------------------------------------------------
  // Scanning

  /** The index of the first `}` at or after `j`, or `|s|` when there is none
      (where the source's `charAt` would return `''` for ever). */
  function CloseFrom(s: string, j: nat): (q: nat)
    decreases |s| - j
    ensures q <= |s|
    ensures q < |s| ==> j <= q && s[q] == '}'
  {
    if j >= |s| then |s| else if s[j] == '}' then j else CloseFrom(s, j + 1)
  }

  /** No `}` lies between `j` and the index `CloseFrom` finds, so it is the
      first one, and when it finds none there is none. */
  lemma {:induction false} CloseFromIsFirst(s: string, j: nat, k: nat)
    requires j <= k < CloseFrom(s, j)
    ensures s[k] != '}'
    decreases |s| - j
  {
    if j < k {
      CloseFromIsFirst(s, j + 1, k);
    }
  }

  /** The scan from index `i` terminates: every `$` it reaches has a `}` at an
      index of at least two past the `$`. The character right after a `$` is
      skipped whatever it is. */
  predicate DecodableFrom(s: string, i: nat)
    decreases |s| - i
  {
    if i >= |s| then true
    else if s[i] != '$' then DecodableFrom(s, i + 1)
    else CloseFrom(s, i + 2) < |s| && DecodableFrom(s, CloseFrom(s, i + 2) + 1)
  }

  predicate Decodable(s: string) {
    DecodableFrom(s, 0)
  }

  /** Puts `t` in front of the leading text node of `doc`. */
  function PrependText(t: string, doc: Document): (r: Document)
    requires |doc| > 0 && doc[0].Text?
    ensures |r| == |doc| && r[0] == Text(t + doc[0].s) && r[1..] == doc[1..]
  {
    [Text(t + doc[0].s)] + doc[1..]
  }

  /** What the suffix of `s` from index `i` decodes to, read from the right:
      a plain character joins the leading text node; a resolved placeholder
      becomes an empty text node and a variable node; an unresolved one
      becomes `$` followed by its name, with the skipped character and the
      closing `}` dropped. */
  function ParseFrom(s: string, i: nat, filter: string -> seq<string>): (doc: Document)
    requires DecodableFrom(s, i)
    decreases |s| - i
    ensures |doc| > 0 && doc[0].Text?
  {
    if i >= |s| then [Text("")]
    else if s[i] != '$' then PrependText([s[i]], ParseFrom(s, i + 1, filter))
    else
      var q := CloseFrom(s, i + 2);
      var name := s[i + 2..q];
      var rest := ParseFrom(s, q + 1, filter);
      if Resolves(filter, name) then [Text(""), Var(name)] + rest
      else PrependText(['$'] + name, rest)
  }

  /** The decoded children always alternate text and variable nodes, start
      and end with a text node, and name only variables that resolve. */
  lemma {:induction false} ParseShape(s: string, i: nat, filter: string -> seq<string>)
    requires DecodableFrom(s, i)
    ensures Alternating(ParseFrom(s, i, filter))
    ensures VarsResolve(ParseFrom(s, i, filter), filter)
    decreases |s| - i
  {
    if i < |s| {
      if s[i] != '$' {
        ParseShape(s, i + 1, filter);
        ParseChar(s, i, filter);
        ShapePrepend([s[i]], ParseFrom(s, i + 1, filter), filter);
      } else {
        var q := CloseFrom(s, i + 2);
        var name := s[i + 2..q];
        var rest := ParseFrom(s, q + 1, filter);
        ParseShape(s, q + 1, filter);
        if Resolves(filter, name) {
          ParseResolved(s, i, q, name, filter);
          ShapePush(name, rest, filter);
        } else {
          ParseUnresolved(s, i, q, name, filter);
          ShapePrepend(['$'] + name, rest, filter);
        }
      }
    }
  }

  lemma {:induction false} ShapePrepend(t: string, doc: Document, filter: string -> seq<string>)
    requires Alternating(doc) && VarsResolve(doc, filter)
    ensures Alternating(PrependText(t, doc)) && VarsResolve(PrependText(t, doc), filter)
  {
    var r := PrependText(t, doc);
    assert forall k :: 1 <= k < |r| ==> r[k] == doc[k];
  }

  lemma {:induction false} ShapePush(name: string, doc: Document, filter: string -> seq<string>)
    requires Alternating(doc) && VarsResolve(doc, filter) && Resolves(filter, name)
    ensures Alternating([Text(""), Var(name)] + doc)
    ensures VarsResolve([Text(""), Var(name)] + doc, filter)
  {
    var r := [Text(""), Var(name)] + doc;
    assert forall k :: 2 <= k < |r| ==> r[k] == doc[k - 2];
    assert forall k :: 2 <= k < |r| ==> (k % 2 == 0 <==> (k - 2) % 2 == 0);
  }

  // ---------------------------------------------------------------------
  // Decoding, as the source does it: one left-to-right pass that appends to
  // the last text node and pushes variable nodes.

  /** `nodes[nodes.length - 1].text += t`. */
  function AppendToLast(nodes: Document, t: string): (r: Document)
    requires |nodes| > 0 && nodes[|nodes| - 1].Text?
    ensures |r| == |nodes| && r[..|r| - 1] == nodes[..|nodes| - 1]
    ensures r[|r| - 1] == Text(nodes[|nodes| - 1].s + t)
  {
    nodes[|nodes| - 1 := Text(nodes[|nodes| - 1].s + t)]
  }

  /** The nodes built so far followed by what the rest of the input decodes
      to, with the open text node of the first merged into the leading text
      node of the second. */
  function Join(nodes: Document, rest: Document): Document
    requires |nodes| > 0 && nodes[|nodes| - 1].Text?
    requires |rest| > 0 && rest[0].Text?
  {
    nodes[..|nodes| - 1] + PrependText(nodes[|nodes| - 1].s, rest)
  }

  /** `getInitialValue(defaultValue, filter)`, returning the children of its
      one paragraph. */
  method Decode(s: string, filter: string -> seq<string>) returns (nodes: Document)
    requires Decodable(s)
    ensures nodes == ParseFrom(s, 0, filter)
    ensures Alternating(nodes) && VarsResolve(nodes, filter)
  {
    nodes := [Text("")];
    var i := 0;
    ghost var whole := ParseFrom(s, 0, filter);
    JoinStart(whole);
    while i < |s|
      invariant 0 <= i <= |s|
      invariant DecodableFrom(s, i)
      invariant |nodes| > 0 && nodes[|nodes| - 1].Text?
      invariant Join(nodes, ParseFrom(s, i, filter)) == whole
      decreases |s| - i
    {
      if s[i] != '$' {
        StepChar(nodes, s, i, filter);
        nodes := AppendToLast(nodes, [s[i]]);
      } else {
        ghost var p := i;
        assert CloseFrom(s, p + 2) < |s| && DecodableFrom(s, CloseFrom(s, p + 2) + 1);
        var varName, q := ScanName(s, i + 2);
        i := q;
        if |filter(varName)| > 0 && filter(varName)[0] == varName {
          StepResolved(nodes, s, p, q, varName, filter);
          nodes := nodes + [Var(varName), Text("")];
        } else {
          StepUnresolved(nodes, s, p, q, varName, filter);
          nodes := AppendToLast(nodes, ['$'] + varName);
        }
      }
      i := i + 1;
    }
    JoinEnd(nodes);
    ParseShape(s, 0, filter);
  }

  /** The inner loop of the scan: reads the name from `j` up to the next
      `}`, which must exist, and returns it with the position of that `}`. */
  method ScanName(s: string, j: nat) returns (name: string, q: nat)
    requires CloseFrom(s, j) < |s|
    ensures q == CloseFrom(s, j) && j <= q < |s| && s[q] == '}'
    ensures name == s[j..q]
  {
    ghost var close := CloseFrom(s, j);
    name := "";
    q := j;
    while s[q] != '}'
      invariant j <= q <= close && CloseFrom(s, q) == close
      invariant name == s[j..q]
      decreases close - q
    {
      name := name + [s[q]];
      q := q + 1;
    }
  }

  /** One plain character: appending it to the open text node keeps the
      nodes built so far, joined with the rest, equal to the whole. */
  lemma {:induction false} StepChar(nodes: Document, s: string, i: nat, filter: string -> seq<string>)
    requires i < |s| && s[i] != '$' && DecodableFrom(s, i)
    requires |nodes| > 0 && nodes[|nodes| - 1].Text?
    ensures DecodableFrom(s, i + 1)
    ensures Join(AppendToLast(nodes, [s[i]]), ParseFrom(s, i + 1, filter))
         == Join(nodes, ParseFrom(s, i, filter))
  {
    ParseChar(s, i, filter);
    JoinShift(nodes, [s[i]], ParseFrom(s, i + 1, filter));
  }

  /** A placeholder `$?name}` whose name resolves: pushing a variable node
      and a new text node keeps the join equal to the whole. */
  lemma {:induction false} StepResolved(nodes: Document, s: string, p: nat, q: nat, name: string,
                                        filter: string -> seq<string>)
    requires p < |s| && s[p] == '$' && DecodableFrom(s, p)
    requires q == CloseFrom(s, p + 2) && q < |s| && DecodableFrom(s, q + 1)
    requires name == s[p + 2..q] && Resolves(filter, name)
    requires |nodes| > 0 && nodes[|nodes| - 1].Text?
    ensures Join(nodes + [Var(name), Text("")], ParseFrom(s, q + 1, filter))
         == Join(nodes, ParseFrom(s, p, filter))
  {
    ParseResolved(s, p, q, name, filter);
    JoinPush(nodes, name, ParseFrom(s, q + 1, filter));
  }

  /** A placeholder `$?name}` whose name does not resolve: appending `$` and
      the name to the open text node keeps the join equal to the whole. */
  lemma {:induction false} StepUnresolved(nodes: Document, s: string, p: nat, q: nat, name: string,
                                          filter: string -> seq<string>)
    requires p < |s| && s[p] == '$' && DecodableFrom(s, p)
    requires q == CloseFrom(s, p + 2) && q < |s| && DecodableFrom(s, q + 1)
    requires name == s[p + 2..q] && !Resolves(filter, name)
    requires |nodes| > 0 && nodes[|nodes| - 1].Text?
    ensures Join(AppendToLast(nodes, ['$'] + name), ParseFrom(s, q + 1, filter))
         == Join(nodes, ParseFrom(s, p, filter))
  {
    ParseUnresolved(s, p, q, name, filter);
    JoinShift(nodes, ['$'] + name, ParseFrom(s, q + 1, filter));
  }

  lemma {:induction false} JoinEnd(nodes: Document)
    requires |nodes| > 0 && nodes[|nodes| - 1].Text?
    ensures Join(nodes, [Text("")]) == nodes
  {
    var n := |nodes|;
    assert nodes[n - 1].s + "" == nodes[n - 1].s;
    assert nodes[..n - 1] + [nodes[n - 1]] == nodes;
  }

  lemma {:induction false} ParseChar(s: string, i: nat, filter: string -> seq<string>)
    requires i < |s| && s[i] != '$' && DecodableFrom(s, i)
    ensures DecodableFrom(s, i + 1)
    ensures ParseFrom(s, i, filter) == PrependText([s[i]], ParseFrom(s, i + 1, filter))
  {
  }

  /** A placeholder whose name resolves becomes an empty text node and a
      variable node in front of what follows its `}`. */
  lemma {:induction false} ParseResolved(s: string, p: nat, q: nat, name: string,
                                         filter: string -> seq<string>)
    requires p < |s| && s[p] == '$'
    requires q == CloseFrom(s, p + 2) && q < |s| && DecodableFrom(s, q + 1)
    requires name == s[p + 2..q] && Resolves(filter, name)
    ensures DecodableFrom(s, p)
    ensures ParseFrom(s, p, filter) == [Text(""), Var(name)] + ParseFrom(s, q + 1, filter)
  {
  }

  /** A placeholder whose name does not resolve puts `$` and the name in
      front of the leading text node of what follows its `}`. */
  lemma {:induction false} ParseUnresolved(s: string, p: nat, q: nat, name: string,
                                           filter: string -> seq<string>)
    requires p < |s| && s[p] == '$'
    requires q == CloseFrom(s, p + 2) && q < |s| && DecodableFrom(s, q + 1)
    requires name == s[p + 2..q] && !Resolves(filter, name)
    ensures DecodableFrom(s, p)
    ensures ParseFrom(s, p, filter) == PrependText(['$'] + name, ParseFrom(s, q + 1, filter))
  {
  }

  lemma {:induction false} JoinStart(rest: Document)
    requires |rest| > 0 && rest[0].Text?
    ensures Join([Text("")], rest) == rest
  {
    assert "" + rest[0].s == rest[0].s;
    assert [rest[0]] + rest[1..] == rest;
  }

  lemma {:induction false} JoinShift(nodes: Document, t: string, rest: Document)
    requires |nodes| > 0 && nodes[|nodes| - 1].Text?
    requires |rest| > 0 && rest[0].Text?
    ensures Join(nodes, PrependText(t, rest)) == Join(AppendToLast(nodes, t), rest)
  {
    var last := nodes[|nodes| - 1].s;
    assert last + (t + rest[0].s) == (last + t) + rest[0].s;
  }

  lemma {:induction false} JoinPush(nodes: Document, name: string, rest: Document)
    requires |nodes| > 0 && nodes[|nodes| - 1].Text?
    requires |rest| > 0 && rest[0].Text?
    ensures Join(nodes, [Text(""), Var(name)] + rest)
         == Join(nodes + [Var(name), Text("")], rest)
  {
    var n := |nodes|;
    var last := nodes[n - 1].s;
    assert last + "" == last;
    assert "" + rest[0].s == rest[0].s;
    assert nodes[..n - 1] + [Text(last)] == nodes;
    assert (nodes + [Var(name), Text("")])[..n + 1] == nodes + [Var(name)];
    assert [rest[0]] + rest[1..] == rest;
  }

  // ---------------------------------------------------------------------
  // Encoding

  /** What one child contributes: its text, or `${name}` for a variable. */
  function SegmentSource(seg: Segment): string {
    match seg
    case Text(t) => t
    case Var(name) => "${" + name + "}"
  }

  /** The children's contributions joined in order (the map/join of
      `getCompiledText`); every variable writes at least its three
      delimiters `${` and `}`. */
  function Encode(doc: Document): (r: string)
    ensures |r| >= 3 * CountVars(doc)
  {
    if doc == [] then "" else SegmentSource(doc[0]) + Encode(doc[1..])
  }

  /** `getCompiledText` over the editor value: the first paragraph's children
      encoded, or `""` when the value holds no paragraph. */
  function CompiledText(value: seq<Document>): (r: string)
    ensures value == [] ==> r == ""
    ensures value != [] ==> r == Encode(value[0])
  {
    if |value| > 0 then Encode(value[0]) else ""
  }

  /** Encoding is a homomorphism from concatenation of documents to
      concatenation of strings. */
  lemma {:induction false} EncodeAppend(a: Document, b: Document)
    ensures Encode(a + b) == Encode(a) + Encode(b)
  {
    if a == [] {
      assert a + b == b;
    } else {
      assert (a + b)[0] == a[0];
      assert (a + b)[1..] == a[1..] + b;
      EncodeAppend(a[1..], b);
    }
  }

  /** Text added to the leading text node appears in front of the encoding. */
  lemma {:induction false} EncodePrependText(t: string, doc: Document)
    requires |doc| > 0 && doc[0].Text?
    ensures Encode(PrependText(t, doc)) == t + Encode(doc)
  {
    var r := PrependText(t, doc);
    var d0, tail := doc[0].s, Encode(doc[1..]);
    assert r[1..] == doc[1..];
    assert Encode(r) == (t + d0) + tail;
    assert Encode(doc) == d0 + tail;
  }

  // ---------------------------------------------------------------------
  // The round trip

  /** Every `$` the scan reaches begins `${name}` with a `}` after it, and
      every such name resolves. */
  predicate RoundTrippableFrom(s: string, i: nat, filter: string -> seq<string>)
    decreases |s| - i
  {
    if i >= |s| then true
    else if s[i] != '$' then RoundTrippableFrom(s, i + 1, filter)
    else
      var q := CloseFrom(s, i + 2);
      && i + 1 < |s| && s[i + 1] == '{'
      && q < |s| && Resolves(filter, s[i + 2..q])
      && RoundTrippableFrom(s, q + 1, filter)
  }

  lemma {:induction false} RoundTrippableIsDecodable(s: string, i: nat, filter: string -> seq<string>)
    requires RoundTrippableFrom(s, i, filter)
    ensures DecodableFrom(s, i)
    decreases |s| - i
  {
    if i < |s| {
      if s[i] != '$' {
        RoundTrippableIsDecodable(s, i + 1, filter);
      } else {
        RoundTrippableIsDecodable(s, CloseFrom(s, i + 2) + 1, filter);
      }
    }
  }

  /** Decoding then encoding the suffix from `i` gives the suffix back. */
  lemma {:induction false} RoundTripFrom(s: string, i: nat, filter: string -> seq<string>)
    requires i <= |s|
    requires RoundTrippableFrom(s, i, filter)
    ensures DecodableFrom(s, i) && Encode(ParseFrom(s, i, filter)) == s[i..]
    decreases |s| - i
  {
    RoundTrippableIsDecodable(s, i, filter);
    if i == |s| {
      assert Encode([Text("")]) == "";
    } else if s[i] != '$' {
      RoundTripFrom(s, i + 1, filter);
      RoundTripChar(s, i, filter);
    } else {
      RoundTripFrom(s, CloseFrom(s, i + 2) + 1, filter);
      RoundTripPlaceholder(s, i, CloseFrom(s, i + 2), filter);
    }
  }

  lemma {:induction false} RoundTripChar(s: string, i: nat, filter: string -> seq<string>)
    requires i < |s| && s[i] != '$' && DecodableFrom(s, i)
    requires Encode(ParseFrom(s, i + 1, filter)) == s[i + 1..]
    ensures Encode(ParseFrom(s, i, filter)) == s[i..]
  {
    EncodePrependText([s[i]], ParseFrom(s, i + 1, filter));
    assert s[i..] == [s[i]] + s[i + 1..];
  }

  lemma {:induction false} RoundTripPlaceholder(s: string, i: nat, q: nat, filter: string -> seq<string>)
    requires i + 1 < |s| && s[i] == '$' && s[i + 1] == '{'
    requires q == CloseFrom(s, i + 2) && q < |s| && DecodableFrom(s, q + 1)
    requires Resolves(filter, s[i + 2..q])
    requires Encode(ParseFrom(s, q + 1, filter)) == s[q + 1..]
    ensures DecodableFrom(s, i) && Encode(ParseFrom(s, i, filter)) == s[i..]
  {
    var name := s[i + 2..q];
    var rest := ParseFrom(s, q + 1, filter);
    ParseResolved(s, i, q, name, filter);
    EncodeAppend([Text(""), Var(name)], rest);
    EncodeVar(name);
    SplitPlaceholder(s, i, q);
  }

  lemma {:induction false} EncodeVar(name: string)
    ensures Encode([Text(""), Var(name)]) == "${" + name + "}"
  {
    var v := "${" + name + "}";
    assert [Var(name)][1..] == [];
    assert Encode([Var(name)]) == v + Encode([]) == v;
    assert [Text(""), Var(name)][1..] == [Var(name)];
    assert Encode([Text(""), Var(name)]) == "" + Encode([Var(name)]);
    assert "" + v == v;
  }

  lemma {:induction false} SplitPlaceholder(s: string, i: nat, q: nat)
    requires i + 2 <= q < |s| && s[i] == '$' && s[i + 1] == '{' && s[q] == '}'
    ensures s[i..] == "${" + s[i + 2..q] + "}" + s[q + 1..]
  {
    assert s[i..] == s[i..i + 2] + s[i + 2..q] + s[q..q + 1] + s[q + 1..];
  }

  /** `encode(decode(s)) == s` whenever every `$` begins a placeholder
      `${name}` whose name resolves. */
  lemma {:induction false} RoundTrip(s: string, filter: string -> seq<string>)
    requires RoundTrippableFrom(s, 0, filter)
    ensures Decodable(s) && Encode(ParseFrom(s, 0, filter)) == s
  {
    RoundTripFrom(s, 0, filter);
  }

  /** A run of characters without `$` joins the leading text node of what
      follows it, verbatim. */
  lemma {:induction false} PlainRunDecodes(s: string, i: nat, j: nat, filter: string -> seq<string>)
    requires i <= j <= |s| && DecodableFrom(s, j)
    requires forall k :: i <= k < j ==> s[k] != '$'
    ensures DecodableFrom(s, i)
    ensures ParseFrom(s, i, filter) == PrependText(s[i..j], ParseFrom(s, j, filter))
    decreases j - i
  {
    var tail := ParseFrom(s, j, filter);
    if i == j {
      assert s[i..j] == "";
      assert "" + tail[0].s == tail[0].s;
      assert [tail[0]] + tail[1..] == tail;
    } else {
      PlainRunDecodes(s, i + 1, j, filter);
      ParseChar(s, i, filter);
      PrependTwice([s[i]], s[i + 1..j], tail);
      assert [s[i]] + s[i + 1..j] == s[i..j];
    }
  }

  lemma {:induction false} PrependTwice(a: string, b: string, doc: Document)
    requires |doc| > 0 && doc[0].Text?
    ensures PrependText(a, PrependText(b, doc)) == PrependText(a + b, doc)
  {
    assert a + (b + doc[0].s) == (a + b) + doc[0].s;
  }

  /** A string without `$` decodes to one text node holding all of it. */
  lemma {:induction false} PlainTextDecodes(s: string, filter: string -> seq<string>)
    requires forall k :: 0 <= k < |s| ==> s[k] != '$'
    ensures Decodable(s) && ParseFrom(s, 0, filter) == [Text(s)]
  {
    PlainRunDecodes(s, 0, |s|, filter);
    assert s[0..|s|] == s && s + "" == s;
  }

  /** The empty template decodes to one empty text node. */
  lemma {:induction false} EmptyDecodes(filter: string -> seq<string>)
    ensures Decodable("") && ParseFrom("", 0, filter) == [Text("")]
  {
  }

  /** An unresolved placeholder loses its braces: `${name}`, with a name
      that has no `}` and does not resolve, decodes to the single text node
      `$name` and so encodes to `$name`, not to the template it came from. */
  lemma {:induction false} UnresolvedDropsBraces(name: string, f: string -> seq<string>)
    requires forall k :: 0 <= k < |name| ==> name[k] != '}'
    requires !Resolves(f, name)
    ensures Decodable("${" + name + "}")
    ensures ParseFrom("${" + name + "}", 0, f) == [Text(['$'] + name)]
    ensures Encode(ParseFrom("${" + name + "}", 0, f)) == ['$'] + name
    ensures Encode(ParseFrom("${" + name + "}", 0, f)) != "${" + name + "}"
  {
    var s := "${" + name + "}";
    var q := 2 + |name|;
    assert s[0] == '$' && s[q] == '}' && |s| == q + 1;
    assert s[2..q] == name;
    assert forall k :: 2 <= k < q ==> s[k] == name[k - 2];
    CloseAt(s, 2, q);
    assert ParseFrom(s, q + 1, f) == [Text("")];
    ParseUnresolved(s, 0, q, name, f);
    assert ['$'] + name + "" == ['$'] + name;
    assert Encode([Text(['$'] + name)]) == ['$'] + name + Encode([]);
    assert s[1] == '{' && (['$'] + name)[1..] == name;
    assert |['$'] + name| < |s|;
  }

  // ---------------------------------------------------------------------
  // Resolution against the catalog

  /** A name resolves exactly when the size limit is positive and the first
      catalog entry matching it (case-insensitively, as a prefix) is the name
      itself. Membership alone is not enough. */
  lemma {:induction false} CatalogResolves(options: seq<string>, size: nat, name: string)
    ensures Resolves(CatalogFilter(options, size), name)
        <==> size > 0 && |Catalog.Matching(options, name)| > 0
             && Catalog.Matching(options, name)[0] == name
    ensures Resolves(CatalogFilter(options, size), name) ==> name in options
  {
    var m := Catalog.Matching(options, name);
    if |m| > 0 {
      assert m[0] in m;
    }
  }

  /** With a limit of zero nothing resolves. */
  lemma {:induction false} SizeZeroNeverResolves(options: seq<string>, name: string)
    ensures !Resolves(CatalogFilter(options, 0), name)
  {
  }

  /** First-hit, not membership: with the catalog `['var10', 'var1']` the
      name `var1` is in the catalog yet does not resolve, because `var10`
      matches the prefix `var1` first. */
  lemma {:induction false} FirstHitNotMembership()
    ensures "var1" in ["var10", "var1"]
    ensures !Resolves(CatalogFilter(["var10", "var1"], 10), "var1")
  {
    assert Catalog.LowerStr("var10") == "var10";
    assert Catalog.LowerStr("var1") == "var1";
    assert Catalog.Matches("var10", "var1");
  }

  lemma {:induction false} ExampleCatalogResolvesVar1()
    ensures Resolves(CatalogFilter(["var1", "var2", "var3"], 10), "var1")
  {
    assert Catalog.LowerStr("var1") == "var1";
    assert Catalog.LowerStr("var2") == "var2";
    assert Catalog.LowerStr("var3") == "var3";
    assert !Catalog.Matches("var2", "var1") && !Catalog.Matches("var3", "var1");
    assert Catalog.Matching(["var1", "var2", "var3"], "var1") == ["var1"];
  }

  /** A template holding one placeholder, `a${name}`, whose text has no `$`,
      whose name has no `}` and resolves, decodes to text `a`, variable
      `name` and an empty text node. */
  lemma {:induction false} SinglePlaceholderDecodes(a: string, name: string, f: string -> seq<string>)
    requires forall k :: 0 <= k < |a| ==> a[k] != '$'
    requires forall k :: 0 <= k < |name| ==> name[k] != '}'
    requires Resolves(f, name)
    ensures Decodable(a + "${" + name + "}")
    ensures ParseFrom(a + "${" + name + "}", 0, f) == [Text(a), Var(name), Text("")]
  {
    var s := a + "${" + name + "}";
    var p, q := |a|, |a| + 2 + |name|;
    assert s[p] == '$' && s[q] == '}' && |s| == q + 1;
    assert s[p + 2..q] == name;
    assert forall k :: p + 2 <= k < q ==> s[k] == name[k - p - 2];
    CloseAt(s, p + 2, q);
    assert ParseFrom(s, q + 1, f) == [Text("")];
    ParseResolved(s, p, q, name, f);
    assert forall k :: 0 <= k < p ==> s[k] == a[k];
    PlainRunDecodes(s, 0, p, f);
    assert s[0..p] == a && a + "" == a;
  }

  /** The mounted example: `test-${var1}`, under any filter that resolves
      `var1` (as the mounted catalog `var1`, `var2`, `var3` with limit 10
      does, `ExampleCatalogResolvesVar1`), decodes to a text node, a variable
      node and an empty text node, and encodes back unchanged. */
  lemma {:induction false} MountedExample(f: string -> seq<string>)
    requires Resolves(f, "var1")
    ensures Decodable("test-${var1}")
    ensures ParseFrom("test-${var1}", 0, f) == [Text("test-"), Var("var1"), Text("")]
    ensures Encode(ParseFrom("test-${var1}", 0, f)) == "test-${var1}"
  {
    var a, name := "test-", "var1";
    assert forall k :: 0 <= k < |a| ==> a[k] != '$';
    assert forall k :: 0 <= k < |name| ==> name[k] != '}';
    SinglePlaceholderDecodes(a, name, f);
    EncodeTextVarText(a, name, "");
    assert a + "${" + name + "}" + "" == a + "${" + name + "}" == "test-${var1}";
  }

  /** The first `}` at or after `j` is found by `CloseFrom`. */
  lemma {:induction false} CloseAt(s: string, j: nat, q: nat)
    requires j <= q < |s| && s[q] == '}'
    requires forall k :: j <= k < q ==> s[k] != '}'
    ensures CloseFrom(s, j) == q
    decreases q - j
  {
    if j < q {
      CloseAt(s, j + 1, q);
    }
  }

  lemma {:induction false} EncodeTextVarText(a: string, name: string, b: string)
    ensures Encode([Text(a), Var(name), Text(b)]) == a + "${" + name + "}" + b
  {
    var doc := [Text(a), Var(name), Text(b)];
    assert doc[1..][1..][1..] == [];
    assert Encode(doc[1..][1..]) == b + Encode([]);
    assert Encode(doc[1..]) == "${" + name + "}" + Encode(doc[1..][1..]);
    assert Encode(doc) == a + Encode(doc[1..]);
  }
}
