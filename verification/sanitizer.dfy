/** `clean_html` (app.py): drop the blacklisted elements with their subtrees, optionally
    clear attributes, serialise, then strip every line and drop the blank ones.
    Parsing and serialisation belong to the HTML library; the model works on the
    parsed forest and takes the serialiser as a parameter. */
module Sanitizer {
  import opened Strings
  import opened Html

  /** The blacklist, in the order the code walks it. */
  const UnwantedTags: seq<string> :=
    ["script", "style", "meta", "footer", "header", "nav", "aside", "form", "iframe", "noscript"]

  const Unwanted: set<string> := set t | t in UnwantedTags

  /** The tags the attribute pass's guard leaves alone. */
  const KeepAttrTags: seq<string> := ["a", "img"]

  // ---------------------------------------------------------------------------
  // Blacklist removal

  /** Removes every element whose name is in `names`, together with its subtree, at
      any depth; everything else is kept in place. */
  function Prune(nodes: seq<Node>, names: set<string>): (r: seq<Node>)
    ensures ElementNames(r) <= ElementNames(nodes) - names
    decreases nodes
  {
    if nodes == [] then []
    else
      var tail := Prune(nodes[1..], names);
      match nodes[0]
      case Element(n, a, ch) =>
        if n in names then tail
        else
          var r := [Element(n, a, Prune(ch, names))] + tail;
          ElementNamesCons(r[0], tail);
          assert r == [r[0]] + tail;
          r
      case Text(t) =>
        ElementNamesCons(nodes[0], tail);
        [nodes[0]] + tail
  }

  /** The code's removal loop: for each blacklisted tag in turn, decompose every
      element with that name (and with it, its subtree). */
  function DecomposeAll(nodes: seq<Node>, tags: seq<string>): seq<Node>
    decreases |tags|
  {
    if tags == [] then nodes else DecomposeAll(Prune(nodes, {tags[0]}), tags[1..])
  }

  /** Streaming reference for removal: walk the document's token stream and drop
      everything from the opening of an element named in `names` to its matching
      close. `depth` counts how deep inside a dropped element the walk is. */
  function DropNamed(ts: seq<Token>, names: set<string>, depth: nat): seq<Token>
    decreases |ts|
  {
    if ts == [] then []
    else match ts[0]
      case Open(n, _) =>
        if depth > 0 || n in names then DropNamed(ts[1..], names, depth + 1)
        else [ts[0]] + DropNamed(ts[1..], names, 0)
      case Close(_) =>
        if depth > 0 then DropNamed(ts[1..], names, depth - 1)
        else [ts[0]] + DropNamed(ts[1..], names, 0)
      case Chars(_) =>
        if depth > 0 then DropNamed(ts[1..], names, depth)
        else [ts[0]] + DropNamed(ts[1..], names, 0)
  }

  /** Inside a dropped element, a whole well-bracketed forest is dropped and the walk
      comes out at the same depth. */
  lemma {:induction false} DropInside(nodes: seq<Node>, rest: seq<Token>, names: set<string>, depth: nat)
    requires depth > 0
    ensures DropNamed(Tokens(nodes) + rest, names, depth) == DropNamed(rest, names, depth)
    decreases nodes
  {
    if nodes == [] {
      assert Tokens(nodes) + rest == rest;
    } else {
      var tail := nodes[1..];
      var afterTail := Tokens(tail) + rest;
      DropInside(tail, rest, names, depth);
      match nodes[0]
      case Element(n, a, ch) =>
        var afterCh := [Close(n)] + afterTail;
        assert Tokens(nodes) + rest == [Open(n, a)] + (Tokens(ch) + afterCh);
        DropInside(ch, afterCh, names, depth + 1);
        assert afterCh[1..] == afterTail;
      case Text(t) =>
        assert Tokens(nodes) + rest == [Chars(t)] + afterTail;
    }
  }

  /** Outside any dropped element, walking a forest's tokens emits exactly the tokens
      of the pruned forest. */
  lemma {:induction false} DropOutside(nodes: seq<Node>, rest: seq<Token>, names: set<string>)
    ensures DropNamed(Tokens(nodes) + rest, names, 0) == Tokens(Prune(nodes, names)) + DropNamed(rest, names, 0)
    decreases nodes, 1
  {
    if nodes == [] {
      assert Tokens(nodes) + rest == rest;
    } else if nodes[0].Text? {
      DropOutsideText(nodes, rest, names);
    } else if nodes[0].name in names {
      DropOutsideNamed(nodes, rest, names);
    } else {
      DropOutsideKept(nodes, rest, names);
    }
  }

  /** `DropOutside` for a forest that starts with text. */
  lemma {:induction false} DropOutsideText(nodes: seq<Node>, rest: seq<Token>, names: set<string>)
    requires nodes != [] && nodes[0].Text?
    ensures DropNamed(Tokens(nodes) + rest, names, 0) == Tokens(Prune(nodes, names)) + DropNamed(rest, names, 0)
    decreases nodes, 0
  {
    var t := nodes[0].text;
    var tail := nodes[1..];
    var ptail := Prune(tail, names);
    var afterTail := Tokens(tail) + rest;
    calc {
      DropNamed(Tokens(nodes) + rest, names, 0);
      == { TokensCons(nodes[0], tail);
           assert [nodes[0]] + tail == nodes;
           assert Tokens(nodes) + rest == [Chars(t)] + afterTail; }
      DropNamed([Chars(t)] + afterTail, names, 0);
      == { DropChars(t, afterTail, names); }
      [Chars(t)] + DropNamed(afterTail, names, 0);
      == { DropOutside(tail, rest, names); }
      [Chars(t)] + (Tokens(ptail) + DropNamed(rest, names, 0));
      == { assert Prune(nodes, names) == [nodes[0]] + ptail;
           TokensCons(nodes[0], ptail); }
      Tokens(Prune(nodes, names)) + DropNamed(rest, names, 0);
    }
  }

  /** One step of the walk over text outside every dropped element. */
  lemma DropChars(t: string, ts: seq<Token>, names: set<string>)
    ensures DropNamed([Chars(t)] + ts, names, 0) == [Chars(t)] + DropNamed(ts, names, 0)
  {
    assert ([Chars(t)] + ts)[0] == Chars(t) && ([Chars(t)] + ts)[1..] == ts;
  }

  /** One step of the walk over an opening tag. */
  lemma DropOpen(n: string, a: map<string, string>, ts: seq<Token>, names: set<string>, depth: nat)
    ensures depth > 0 || n in names ==> DropNamed([Open(n, a)] + ts, names, depth) == DropNamed(ts, names, depth + 1)
    ensures depth == 0 && n !in names ==> DropNamed([Open(n, a)] + ts, names, depth) == [Open(n, a)] + DropNamed(ts, names, 0)
  {
    assert ([Open(n, a)] + ts)[0] == Open(n, a) && ([Open(n, a)] + ts)[1..] == ts;
  }

  /** One step of the walk over a closing tag. */
  lemma DropClose(n: string, ts: seq<Token>, names: set<string>, depth: nat)
    ensures depth > 0 ==> DropNamed([Close(n)] + ts, names, depth) == DropNamed(ts, names, depth - 1)
    ensures depth == 0 ==> DropNamed([Close(n)] + ts, names, depth) == [Close(n)] + DropNamed(ts, names, 0)
  {
    assert ([Close(n)] + ts)[0] == Close(n) && ([Close(n)] + ts)[1..] == ts;
  }

  /** The tokens of a forest that starts with an element, followed by more tokens. */
  lemma TokensElementThen(nodes: seq<Node>, rest: seq<Token>)
    requires nodes != [] && nodes[0].Element?
    ensures Tokens(nodes) + rest ==
      [Open(nodes[0].name, nodes[0].attrs)] + (Tokens(nodes[0].children) + ([Close(nodes[0].name)] + (Tokens(nodes[1..]) + rest)))
  {
  }

  /** `DropOutside` for a forest that starts with an element named in `names`. */
  lemma {:induction false} DropOutsideNamed(nodes: seq<Node>, rest: seq<Token>, names: set<string>)
    requires nodes != [] && nodes[0].Element? && nodes[0].name in names
    ensures DropNamed(Tokens(nodes) + rest, names, 0) == Tokens(Prune(nodes, names)) + DropNamed(rest, names, 0)
    decreases nodes, 0
  {
    var Element(n, a, ch) := nodes[0];
    var tail := nodes[1..];
    var afterTail := Tokens(tail) + rest;
    var afterCh := [Close(n)] + afterTail;
    TokensElementThen(nodes, rest);
    DropOpen(n, a, Tokens(ch) + afterCh, names, 0);
    DropInside(ch, afterCh, names, 1);
    DropClose(n, afterTail, names, 1);
    DropOutside(tail, rest, names);
    assert Prune(nodes, names) == Prune(tail, names);
  }

  /** `DropOutside` for a forest that starts with an element not named in `names`. */
  lemma {:induction false} DropOutsideKept(nodes: seq<Node>, rest: seq<Token>, names: set<string>)
    requires nodes != [] && nodes[0].Element? && nodes[0].name !in names
    ensures DropNamed(Tokens(nodes) + rest, names, 0) == Tokens(Prune(nodes, names)) + DropNamed(rest, names, 0)
    decreases nodes, 0
  {
    var Element(n, a, ch) := nodes[0];
    var tail := nodes[1..];
    var afterTail := Tokens(tail) + rest;
    var afterCh := [Close(n)] + afterTail;
    var pch, ptail := Prune(ch, names), Prune(tail, names);
    var open, close := [Open(n, a)], [Close(n)];
    calc {
      DropNamed(Tokens(nodes) + rest, names, 0);
      == { TokensElementThen(nodes, rest); DropOpen(n, a, Tokens(ch) + afterCh, names, 0); }
      open + DropNamed(Tokens(ch) + afterCh, names, 0);
      == { DropOutside(ch, afterCh, names); }
      open + (Tokens(pch) + DropNamed(afterCh, names, 0));
      == { DropClose(n, afterTail, names, 0); }
      open + (Tokens(pch) + (close + DropNamed(afterTail, names, 0)));
      == { DropOutside(tail, rest, names); }
      open + (Tokens(pch) + (close + (Tokens(ptail) + DropNamed(rest, names, 0))));
      == { ConcatAssoc(open, Tokens(pch), close, Tokens(ptail), DropNamed(rest, names, 0)); }
      (open + Tokens(pch) + close + Tokens(ptail)) + DropNamed(rest, names, 0);
      == { assert Prune(nodes, names) == [Element(n, a, pch)] + ptail;
           TokensCons(Element(n, a, pch), ptail); }
      Tokens(Prune(nodes, names)) + DropNamed(rest, names, 0);
    }
  }

  /** Regrouping a concatenation of five sequences. */
  lemma ConcatAssoc<T>(a: seq<T>, b: seq<T>, c: seq<T>, d: seq<T>, e: seq<T>)
    ensures a + (b + (c + (d + e))) == a + b + c + d + e
  {
  }

  /** Pruning is the streaming removal: the token stream of the pruned forest is the
      original stream with every blacklisted element's opening tag, contents and
      closing tag deleted. */
  lemma PruneIsDrop(nodes: seq<Node>, names: set<string>)
    ensures Tokens(Prune(nodes, names)) == DropNamed(Tokens(nodes), names, 0)
  {
    DropOutside(nodes, [], names);
    assert Tokens(nodes) + [] == Tokens(nodes);
    assert Tokens(Prune(nodes, names)) + [] == Tokens(Prune(nodes, names));
  }

  /** Pruning by `a` and then by `b` is pruning by both at once. */
  lemma {:induction false} PruneTwice(nodes: seq<Node>, a: set<string>, b: set<string>)
    ensures Prune(Prune(nodes, a), b) == Prune(nodes, a + b)
    decreases nodes
  {
    if nodes != [] {
      var tail := nodes[1..];
      PruneTwice(tail, a, b);
      var pa := Prune(tail, a);
      match nodes[0]
      case Element(n, attrs, ch) =>
        if n !in a {
          PruneTwice(ch, a, b);
          var x := Element(n, attrs, Prune(ch, a));
          assert ([x] + pa)[0] == x && ([x] + pa)[1..] == pa;
        }
      case Text(t) =>
        assert ([nodes[0]] + pa)[0] == nodes[0] && ([nodes[0]] + pa)[1..] == pa;
    }
  }

  /** A forest with no element named in `names` is left as it is. */
  lemma {:induction false} PruneNothing(nodes: seq<Node>, names: set<string>)
    requires ElementNames(nodes) * names == {}
    ensures Prune(nodes, names) == nodes
    decreases nodes
  {
    if nodes != [] {
      var x, tail := nodes[0], nodes[1..];
      assert [x] + tail == nodes;
      ElementNamesCons(x, tail);
      PruneNothing(tail, names);
      match x
      case Element(n, a, ch) =>
        assert ElementNames(nodes) == {n} + ElementNames(ch) + ElementNames(tail) by {
          assert ElementNames(nodes) == ElementNames([x] + tail);
        }
        assert n !in ElementNames(nodes) * names;
        assert ElementNames(ch) * names == {} by {
          forall m | m in ElementNames(ch) ensures m !in names {
            assert m !in ElementNames(nodes) * names;
          }
        }
        PruneNothing(ch, names);
        calc {
          Prune(nodes, names);
          [Element(n, a, Prune(ch, names))] + Prune(tail, names);
          [x] + tail;
        }
      case Text(t) =>
        assert Prune(nodes, names) == [x] + Prune(tail, names);
    }
  }

  /** The code's tag-by-tag loop removes exactly what a single pass over the whole
      blacklist removes, whatever the order of the tags. */
  lemma {:induction false} DecomposeAllIsPrune(nodes: seq<Node>, tags: seq<string>)
    ensures DecomposeAll(nodes, tags) == Prune(nodes, set t | t in tags)
    decreases |tags|
  {
    if tags == [] {
      assert (set t | t in tags) == {};
      PruneNothing(nodes, {});
    } else {
      DecomposeAllIsPrune(Prune(nodes, {tags[0]}), tags[1..]);
      PruneTwice(nodes, {tags[0]}, set t | t in tags[1..]);
      assert {tags[0]} + (set t | t in tags[1..]) == set t | t in tags;
    }
  }

  /** The blacklist pass of `clean_html`. No blacklisted element is left at any depth,
      and the document's token stream is the original one with each blacklisted
      element and everything inside it deleted. */
  function RemoveUnwanted(nodes: seq<Node>): (r: seq<Node>)
    ensures ElementNames(r) <= ElementNames(nodes) - Unwanted
    ensures Tokens(r) == DropNamed(Tokens(nodes), Unwanted, 0)
  {
    DecomposeAllIsPrune(nodes, UnwantedTags);
    PruneIsDrop(nodes, Unwanted);
    DecomposeAll(nodes, UnwantedTags)
  }

  // ---------------------------------------------------------------------------
  // Attribute cleaning

  /** `element.get(key)` read for truthiness: a missing attribute and an empty value
      are both falsy, so both read as "". */
  function AttrValue(attrs: map<string, string>, key: string): string
  {
    if key in attrs then attrs[key] else ""
  }

  /** `{key: value}` when the attribute is present and non-empty, `{}` otherwise. */
  function KeepIfSet(attrs: map<string, string>, key: string): map<string, string>
  {
    if AttrValue(attrs, key) != "" then map[key := AttrValue(attrs, key)] else map[]
  }

  /** The attributes an element ends up with, branch for branch as the code has it.
      The outer guard already excludes "a" and "img", so the two inner branches that
      would filter anchor and image attributes can never be taken. */
  function CleanedAttrs(name: string, attrs: map<string, string>): (r: map<string, string>)
    ensures name == "a" || name == "img" ==> r == attrs
    ensures name != "a" && name != "img" ==> r == map[]
  {
    if name !in KeepAttrTags then
      if name == "a" then KeepIfSet(attrs, "href")
      else if name == "img" then KeepIfSet(attrs, "src") + KeepIfSet(attrs, "alt")
      else map[]
    else attrs
  }

  /** What the attribute pass does to one token of the stream: anchors and images keep
      every attribute they had, every other element loses all of them, and closing
      tags and text are untouched. */
  predicate CleanedToken(before: Token, after: Token) {
    match before
    case Open(n, a) => after == Open(n, if n in KeepAttrTags then a else map[])
    case _ => after == before
  }

  /** `after` is `before` token for token, with the attribute pass applied to each. */
  predicate CleanedStream(before: seq<Token>, after: seq<Token>) {
    |before| == |after| && forall i :: 0 <= i < |before| ==> CleanedToken(before[i], after[i])
  }

  lemma CleanedStreamConcat(b1: seq<Token>, a1: seq<Token>, b2: seq<Token>, a2: seq<Token>)
    requires CleanedStream(b1, a1) && CleanedStream(b2, a2)
    ensures CleanedStream(b1 + b2, a1 + a2)
  {
    forall i | 0 <= i < |b1 + b2|
      ensures CleanedToken((b1 + b2)[i], (a1 + a2)[i])
    {
      if i < |b1| {
        assert (b1 + b2)[i] == b1[i] && (a1 + a2)[i] == a1[i];
      } else {
        assert (b1 + b2)[i] == b2[i - |b1|] && (a1 + a2)[i] == a2[i - |b1|];
      }
    }
  }

  /** The attribute pass over every element at any depth. The tree keeps its shape,
      names and text; anchors and images keep their attributes, all other elements
      end up with none. */
  function CleanAttributes(nodes: seq<Node>): (r: seq<Node>)
    ensures CleanedStream(Tokens(nodes), Tokens(r))
    ensures ElementNames(r) == ElementNames(nodes)
    decreases nodes
  {
    if nodes == [] then []
    else
      var tail := CleanAttributes(nodes[1..]);
      match nodes[0]
      case Element(n, a, ch) =>
        var ch' := CleanAttributes(ch);
        var x := Element(n, CleanedAttrs(n, a), ch');
        TokensCons(x, tail);
        ElementNamesCons(x, tail);
        CleanedStreamConcat([Open(n, a)], [Open(n, CleanedAttrs(n, a))], Tokens(ch), Tokens(ch'));
        CleanedStreamConcat([Open(n, a)] + Tokens(ch), [Open(n, CleanedAttrs(n, a))] + Tokens(ch'),
                            [Close(n)], [Close(n)]);
        CleanedStreamConcat([Open(n, a)] + Tokens(ch) + [Close(n)],
                            [Open(n, CleanedAttrs(n, a))] + Tokens(ch') + [Close(n)],
                            Tokens(nodes[1..]), Tokens(tail));
        [x] + tail
      case Text(t) =>
        TokensCons(nodes[0], tail);
        ElementNamesCons(nodes[0], tail);
        CleanedStreamConcat([Chars(t)], [Chars(t)], Tokens(nodes[1..]), Tokens(tail));
        [nodes[0]] + tail
  }

  /** A second attribute pass changes nothing. */
  lemma {:induction false} CleanAttributesTwice(nodes: seq<Node>)
    ensures CleanAttributes(CleanAttributes(nodes)) == CleanAttributes(nodes)
    decreases nodes
  {
    if nodes != [] {
      var tail := CleanAttributes(nodes[1..]);
      CleanAttributesTwice(nodes[1..]);
      match nodes[0]
      case Element(n, a, ch) =>
        CleanAttributesTwice(ch);
        var x := Element(n, CleanedAttrs(n, a), CleanAttributes(ch));
        assert ([x] + tail)[0] == x && ([x] + tail)[1..] == tail;
      case Text(t) =>
        assert ([nodes[0]] + tail)[0] == nodes[0] && ([nodes[0]] + tail)[1..] == tail;
    }
  }

  // ---------------------------------------------------------------------------
  // The tree part of clean_html

  /** Blacklist removal, then the attribute pass when `cleanAttributes` is set. The
      result's token stream is the original stream with the blacklisted elements
      deleted and, when asked for, the attribute pass applied to what is left; without
      it, every remaining element keeps its attributes exactly. */
  function CleanTree(nodes: seq<Node>, cleanAttributes: bool): (r: seq<Node>)
    ensures ElementNames(r) <= ElementNames(nodes) - Unwanted
    ensures cleanAttributes ==> CleanedStream(DropNamed(Tokens(nodes), Unwanted, 0), Tokens(r))
    ensures !cleanAttributes ==> Tokens(r) == DropNamed(Tokens(nodes), Unwanted, 0)
  {
    var t := RemoveUnwanted(nodes);
    if cleanAttributes then CleanAttributes(t) else t
  }

  /** Cleaning an already cleaned tree changes nothing. */
  lemma CleanTreeIdempotent(nodes: seq<Node>, cleanAttributes: bool)
    ensures CleanTree(CleanTree(nodes, cleanAttributes), cleanAttributes) == CleanTree(nodes, cleanAttributes)
  {
    var once := CleanTree(nodes, cleanAttributes);
    DecomposeAllIsPrune(once, UnwantedTags);
    PruneNothing(once, Unwanted);
    if cleanAttributes {
      CleanAttributesTwice(RemoveUnwanted(nodes));
    }
  }

  // ---------------------------------------------------------------------------
  // Line normalisation

  /** A line as the normaliser leaves it: not blank, no line boundary inside, no
      whitespace at either end. */
  predicate Normalised(line: string) {
    line != [] && NoLineBreak(line) && !IsSpace(line[0]) && !IsSpace(line[|line| - 1])
  }

  /** The generator `line.strip() for line in lines if line.strip()`. */
  function NonBlank(lines: seq<string>): (r: seq<string>)
    requires forall i :: 0 <= i < |lines| ==> NoLineBreak(lines[i])
    ensures forall i :: 0 <= i < |r| ==> Normalised(r[i])
    ensures |r| <= |lines|
  {
    if lines == [] then []
    else
      var l := Strip(lines[0]);
      var head := if l != "" then [l] else [];
      var rest := NonBlank(lines[1..]);
      StripLine(lines[0]);
      assert forall i :: 0 <= i < |head + rest| ==> (head + rest)[i] == if i < |head| then l else rest[i - |head|];
      head + rest
  }

  /** A line without boundaries strips to a normalised line or to nothing. */
  lemma StripLine(line: string)
    requires NoLineBreak(line)
    ensures Strip(line) != "" ==> Normalised(Strip(line))
  {
  }

  /** The generator runs line by line: the result for two runs of lines is the result
      for the first followed by the result for the second. */
  lemma {:induction false} NonBlankConcat(a: seq<string>, b: seq<string>)
    requires forall i :: 0 <= i < |a| ==> NoLineBreak(a[i])
    requires forall i :: 0 <= i < |b| ==> NoLineBreak(b[i])
    ensures NonBlank(a + b) == NonBlank(a) + NonBlank(b)
    decreases |a|
  {
    if a == [] {
      assert a + b == b;
    } else {
      var ab := a + b;
      assert ab[0] == a[0] && ab[1..] == a[1..] + b;
      NonBlankConcat(a[1..], b);
      var l := Strip(a[0]);
      var h := if l != "" then [l] else [];
      calc {
        NonBlank(ab);
        h + NonBlank(a[1..] + b);
        h + (NonBlank(a[1..]) + NonBlank(b));
        (h + NonBlank(a[1..])) + NonBlank(b);
        NonBlank(a) + NonBlank(b);
      }
    }
  }

  /** One line: kept, stripped, exactly when it is not blank. */
  lemma NonBlankOne(line: string)
    requires NoLineBreak(line)
    ensures AllSpace(line) ==> NonBlank([line]) == []
    ensures !AllSpace(line) ==> NonBlank([line]) == [Strip(line)]
  {
    assert [line][1..] == [];
  }

  /** Lines already normalised pass through the generator unchanged. */
  lemma {:induction false} NonBlankNormalised(lines: seq<string>)
    requires forall i :: 0 <= i < |lines| ==> Normalised(lines[i])
    requires forall i :: 0 <= i < |lines| ==> NoLineBreak(lines[i])
    ensures NonBlank(lines) == lines
    decreases |lines|
  {
    if lines != [] {
      StripStripped(lines[0]);
      NonBlankNormalised(lines[1..]);
      assert lines == [lines[0]] + lines[1..];
    }
  }

  /** The last step of `clean_html`: split into lines, strip each, drop the blank ones
      and join with "\n". Splitting the result gives back exactly the stripped
      non-blank lines of the input in their original order, and every one of them is
      normalised. */
  function NormaliseLines(s: string): (r: string)
    ensures SplitLines(r) == NonBlank(SplitLines(s))
    ensures forall i :: 0 <= i < |SplitLines(r)| ==> Normalised(SplitLines(r)[i])
  {
    var kept := NonBlank(SplitLines(s));
    SplitJoinLines(kept);
    JoinLines(kept)
  }

  /** Normalising twice is normalising once. */
  lemma NormaliseLinesIdempotent(s: string)
    ensures NormaliseLines(NormaliseLines(s)) == NormaliseLines(s)
  {
    var r := NormaliseLines(s);
    var kept := NonBlank(SplitLines(s));
    NonBlankNormalised(kept);
  }

  // ---------------------------------------------------------------------------
  // clean_html

  /** `clean_html(html, clean_attributes)`, over the parsed document and with the
      library's serialiser as a parameter. Its lines are the stripped non-blank lines
      of the serialised cleaned tree, in order; none is empty or has whitespace at
      either end; and normalising the output again changes nothing. */
  function CleanHtml(nodes: seq<Node>, cleanAttributes: bool, serialise: seq<Node> -> string): (r: string)
    ensures SplitLines(r) == NonBlank(SplitLines(serialise(CleanTree(nodes, cleanAttributes))))
    ensures forall i :: 0 <= i < |SplitLines(r)| ==> Normalised(SplitLines(r)[i])
    ensures NormaliseLines(r) == r
  {
    var text := serialise(CleanTree(nodes, cleanAttributes));
    NormaliseLinesIdempotent(text);
    NormaliseLines(text)
  }
}
