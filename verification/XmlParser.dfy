/** The parser of tinyxml2 as the source runs it: pointers into the document buffer, a
    depth counter, and end tags handed up from the node that reads them. */
module XmlParser {
  import opened Wrappers
  import opened Bytes
  import opened XmlText
  import opened XmlTree
  import R = XmlReader

  class Document {
    const buf: bytes
    var parsingDepth: nat
    var error: bool

    constructor (text: bytes)
      ensures buf == text && parsingDepth == 0 && !error
    {
      buf, parsingDepth, error := text, 0, false;
    }

    // --------------------------------------------------------------- scanning

    method SkipWhiteSpace(p: nat) returns (q: nat)
      requires p <= |buf|
      ensures p <= q <= |buf| && buf[q..] == XmlTree.SkipWhiteSpace(buf[p..])
    {
      q := p;
      while q < |buf| && IsWhiteSpace(buf[q])
        invariant p <= q <= |buf| && XmlTree.SkipWhiteSpace(buf[q..]) == XmlTree.SkipWhiteSpace(buf[p..])
      {
        assert buf[q..][0] == buf[q] && buf[q..][1..] == buf[q + 1..];
        q := q + 1;
      }
      assert q < |buf| ==> buf[q..][0] == buf[q];
    }

    /** StrPair::ParseText: where the text ends and where reading goes on. */
    method ParseText(p: nat, endTag: bytes) returns (found: bool, end: nat, next: nat)
      requires p <= |buf| && endTag != []
      ensures
        var r := FindMark(buf[p..], endTag);
        && found == (r < |buf| - p)
        && (found ==> end == p + r && next == end + |endTag| <= |buf|)
    {
      hide FindMark;
      end := p;
      while end < |buf|
        invariant p <= end <= |buf|
        invariant FindMark(buf[p..], endTag) == end - p + FindMark(buf[end..], endTag)
      {
        FindStep(buf[end..], endTag);
        assert buf[end..][1..] == buf[end + 1..];
        if endTag <= buf[end..] {
          return true, end, end + |endTag|;
        }
        end := end + 1;
      }
      FindNothing(buf[end..], endTag);
      return false, end, end;
    }

    /** StrPair::ParseName */
    method ParseName(p: nat) returns (found: bool, next: nat)
      requires p <= |buf|
      ensures p <= next <= |buf| && next - p == R.ParseName(buf[p..]) && found == (next > p)
    {
      if p == |buf| || !IsNameStart(buf[p]) {
        return false, p;
      }
      next := p;
      while next < |buf| && IsNameChar(buf[next])
        invariant p <= next <= |buf|
        invariant R.NameLength(buf[p..]) == next - p + R.NameLength(buf[next..])
      {
        assert buf[next..][0] == buf[next] && buf[next..][1..] == buf[next + 1..];
        next := next + 1;
      }
      assert next < |buf| ==> buf[next..][0] == buf[next];
      assert buf[p..][0] == buf[p];
      found := true;
    }
  
    // ------------------------------------------------------------------- tags

    /** XMLAttribute::ParseDeep */
    method ParseAttribute(p: nat) returns (next: Option<nat>, attribute: (bytes, bytes))
      requires p <= |buf|
      ensures
        match R.ParseAttribute(buf[p..])
        case None => next.None?
        case Some(r) =>
          next.Some? && p < next.value <= |buf| && attribute == r.0 && buf[next.value..] == r.1
    {
      hide FindMark, Decode, XmlTree.SkipWhiteSpace, R.ParseName;
      next, attribute := None, ([], []);
      var found, q := ParseName(p);
      if !found || q == |buf| {
        return;
      }
      assert buf[p..][..q - p] == buf[p..q] && buf[p..][q - p..] == buf[q..];
      var name := buf[p..q];
      q := SkipWhiteSpace(q);
      if q == |buf| || buf[q] != EQUALS {
        return;
      }
      assert buf[q..][1..] == buf[q + 1..];
      q := SkipWhiteSpace(q + 1);
      if q == |buf| || (buf[q] != QUOT && buf[q] != APOS) {
        return;
      }
      assert buf[q..][1..] == buf[q + 1..];
      var start := q + 1;
      var closed, stop, after := ParseText(start, [buf[q]]);
      if !closed {
        return;
      }
      assert buf[start..][..stop - start] == buf[start..stop] && buf[start..][stop - start + 1..] == buf[after..];
      next, attribute := Some(after), (name, Decode(buf[start..stop], 0, [], TEXT_ELEMENT));
    }

    /** FindAttribute by name. */
    method HasAttribute(attributes: seq<(bytes, bytes)>, name: bytes) returns (found: bool)
      ensures found == R.HasName(attributes, name)
    {
      for i := 0 to |attributes|
        invariant !R.HasName(attributes[..i], name)
      {
        if attributes[i].0 == name {
          assert attributes[i] in attributes;
          return true;
        }
        assert attributes[..i + 1] == attributes[..i] + [attributes[i]];
      }
      assert attributes[..|attributes|] == attributes;
      found := false;
    }

    /** ParseAttributes, up to the end of the tag. */
    method ParseAttributes(p: nat) returns (next: Option<nat>, sealed: bool, attributes: seq<(bytes, bytes)>)
      requires p <= |buf|
      modifies this`error
      ensures
        match R.ParseAttributes(buf[p..], [])
        case None => next.None? && error
        case Some(r) =>
          && next.Some? && p < next.value <= |buf| && error == old(error)
          && (sealed, attributes, buf[next.value..]) == r
    {
      hide R.ParseAttributes, R.ParseAttribute, R.HasName, XmlTree.SkipWhiteSpace;
      next, sealed, attributes := None, false, [];
      var q := p;
      while true
        invariant p <= q <= |buf| && error == old(error) && next.None? && !sealed
        invariant R.ParseAttributes(buf[q..], attributes) == R.ParseAttributes(buf[p..], [])
        decreases |buf| - q
      {
        AttributesStep(buf[q..], attributes);
        q := SkipWhiteSpace(q);
        if q == |buf| {
          error := true;
          return;
        }
        assert buf[q..][0] == buf[q];
        if IsNameStart(buf[q]) {
          var rest, attribute := ParseAttribute(q);
          var found := rest.None?;
          if !found {
            found := HasAttribute(attributes, attribute.0);
          }
          if found {
            error := true;
            return;
          }
          attributes := attributes + [attribute];
          q := rest.value;
        } else if buf[q] == GT {
          assert buf[q..][1..] == buf[q + 1..];
          next := Some(q + 1);
          return;
        } else if buf[q] == SLASH && q + 1 < |buf| && buf[q + 1] == GT {
          assert buf[q..][1] == GT && buf[q..][2..] == buf[q + 2..];
          next, sealed := Some(q + 2), true;
          return;
        } else {
          assert q + 1 < |buf| ==> buf[q..][1] == buf[q + 1];
          error := true;
          return;
        }
      }
    }

    // ------------------------------------------------------------------ nodes

    /** XMLDocument::Identify: the kind of node, and where its content starts. */
    method Identify(p: nat) returns (header: Option<R.Header>, next: nat)
      requires p <= |buf|
      ensures p <= next <= |buf|
      ensures
        var t := XmlTree.SkipWhiteSpace(buf[p..]);
        if t == [] then header.None?
        else
          && header == Some(R.Identify(t))
          && (header.value.MarkedHeader? ==> buf[next..] == t[|Open(header.value.kind)|..])
          && (header.value.ElementHeader? ==> buf[next..] == t[1..] && next > p)
          && (header.value.TextHeader? ==> next == p)
    {
      var q := SkipWhiteSpace(p);
      if q == |buf| {
        return None, q;
      }
      var t := buf[q..];
      header, next := Some(R.Identify(t)), p;
      match header.value {
        case MarkedHeader(kind) =>
          next := q + |Open(kind)|;
          assert t[|Open(kind)|..] == buf[next..];
        case ElementHeader =>
          next := q + 1;
          assert t[1..] == buf[next..];
        case TextHeader =>
      }
    }

    /** What XMLElement::ParseDeep makes of a tag and what follows it. */
    ghost predicate ElementRead(p: nat, level: nat, next: Option<nat>, closing: R.ClosingType, name: bytes,
                                attributes: seq<(bytes, bytes)>, children: seq<Node>, endTag: Option<bytes>)
      requires p <= |buf|
    {
      match R.ParseTag(buf[p..])
      case None => next.None?
      case Some(tag) =>
        && (closing, name, attributes) == (tag.closing, tag.name, tag.attributes)
        && if tag.closing != R.OPEN || tag.rest == [] then
             next.Some? && p < next.value <= |buf| && buf[next.value..] == tag.rest && children == [] && endTag.None?
           else match R.ParseDeep(tag.rest, level + 1, false)
             case Bad => next.None?
             case Good(inside, tag', rest) =>
               if tag'.None? then next.None?
               else
                 && next.Some? && p < next.value <= |buf| && buf[next.value..] == rest
                 && children == inside && endTag == tag'
    }

    method ParseTagStart(p: nat) returns (found: bool, closing: bool, name: bytes, next: nat)
      requires p <= |buf|
      ensures p <= next <= |buf|
      ensures
        var t := XmlTree.SkipWhiteSpace(buf[p..]);
        var u := if t != [] && t[0] == SLASH then t[1..] else t;
        var n := R.ParseName(u);
        && closing == (t != [] && t[0] == SLASH) && found == (n > 0)
        && (found ==> next > p && name == u[..n] && buf[next..] == u[n..])
    {
      hide R.ParseName, XmlTree.SkipWhiteSpace;
      name := [];
      var q := SkipWhiteSpace(p);
      closing := q < |buf| && buf[q] == SLASH;
      if closing {
        assert buf[q..][1..] == buf[q + 1..];
        q := q + 1;
      }
      found, next := ParseName(q);
      if found {
        name := buf[q..next];
        assert buf[q..][..next - q] == name && buf[q..][next - q..] == buf[next..];
      }
    }

    /** XMLElement::ParseDeep, behind the "<". */
    method ParseElement(p: nat) returns (next: Option<nat>, closing: R.ClosingType, name: bytes,
                                         attributes: seq<(bytes, bytes)>, children: seq<Node>, endTag: Option<bytes>)
      requires p <= |buf| && !error
      modifies this
      ensures parsingDepth == old(parsingDepth) && (next.Some? ==> !error)
      ensures ElementRead(p, parsingDepth, next, closing, name, attributes, children, endTag)
      decreases |buf| - p, 0
    {
      hide R.ParseAttributes, R.ParseName, XmlTree.SkipWhiteSpace, R.ParseDeep;
      closing, attributes, children, endTag := R.OPEN, [], [], None;
      var found, slash, after := false, false, p;
      found, slash, name, after := ParseTagStart(p);
      if !found {
        return None, closing, name, attributes, children, endTag;
      }
      var sealed;
      next, sealed, attributes := ParseAttributes(after);
      if next.None? {
        return;
      }
      closing := if sealed then R.CLOSED else if slash then R.CLOSING else R.OPEN;
      if next.value == |buf| || closing != R.OPEN {
        return;
      }
      next, children, endTag := ParseDeep(next.value, false);
    }

    /** XMLNode::ParseDeep: the children of a node, up to an end tag or the end of the text.
        The depth is counted while this runs. */
    method ParseDeep(p: nat, top: bool) returns (next: Option<nat>, children: seq<Node>, endTag: Option<bytes>)
      requires p <= |buf| && !error
      modifies this
      ensures parsingDepth == old(parsingDepth)
      ensures
        match R.ParseDeep(buf[p..], parsingDepth + 1, top)
        case Bad => error && next.None?
        case Good(nodes, tag, rest) =>
          && !error && children == nodes && endTag == tag
          && (tag.Some? ==> next.Some? && p <= next.value <= |buf| && buf[next.value..] == rest)
          && (tag.None? ==> next.None?)
      decreases |buf| - p, 3
    {
      hide R.ParseChildren;
      next, children, endTag := None, [], None;
      parsingDepth := parsingDepth + 1;
      if parsingDepth >= R.MAX_DEPTH {
        error := true;
      } else {
        next, children, endTag := ParseChildren(p, top);
      }
      parsingDepth := parsingDepth - 1;
    }

    method ParseChildren(p: nat, top: bool) returns (next: Option<nat>, children: seq<Node>, endTag: Option<bytes>)
      requires p <= |buf| && !error
      modifies this
      ensures parsingDepth == old(parsingDepth)
      ensures
        match R.ParseChildren(buf[p..], parsingDepth, top, [])
        case Bad => error && next.None?
        case Good(nodes, tag, rest) =>
          && !error && children == nodes && endTag == tag
          && (tag.Some? ==> next.Some? && p <= next.value <= |buf| && buf[next.value..] == rest)
          && (tag.None? ==> next.None?)
      decreases |buf| - p, 2
    {
      hide R.ParseChildren, XmlTree.SkipWhiteSpace;
      next, children, endTag := None, [], None;
      var q := p;
      while q < |buf|
        invariant p <= q <= |buf| && !error && parsingDepth == old(parsingDepth) && next.None? && endTag.None?
        invariant
          R.ParseChildren(buf[p..], parsingDepth, top, []) == R.ParseChildren(buf[q..], parsingDepth, top, children)
        decreases |buf| - q
      {
        var step, node;
        step, q, node, endTag := ParseNode(q, top, children);
        match step {
          case Failed =>
            error := true;
            return None, children, None;
          case Ended => return None, children, None;
          case Closed => return Some(q), children, endTag;
          case Added => children := children + [node];
        }
      }
      ChildrenEnd(buf[q..], parsingDepth, top, children);
    }

    /** One round of the loop in XMLNode::ParseDeep. */
    method ParseNode(p: nat, top: bool, children: seq<Node>)
      returns (step: Step, next: nat, node: Node, endTag: Option<bytes>)
      requires p < |buf| && !error
      modifies this
      ensures parsingDepth == old(parsingDepth) && p <= next <= |buf| && (step.Added? ==> p < next)
      ensures !step.Failed? ==> !error
      ensures step.Closed? <==> endTag.Some?
      ensures
        R.ParseChildren(buf[p..], parsingDepth, top, children)
        == match step
           case Failed => R.Bad
           case Ended => R.Good(children, None, [])
           case Closed => R.Good(children, endTag, buf[next..])
           case Added => R.ParseChildren(buf[next..], parsingDepth, top, children + [node])
      decreases |buf| - p, 1
    {
      hide R.ParseTag, R.ParseDeep, R.Identify, FindMark, Decode, XmlTree.SkipWhiteSpace, ElementRead, Open, Close;
      step, node, endTag := Failed, Text([]), None;
      var header;
      header, next := Identify(p);
      if header.None? {
        step := Ended;
        return;
      }
      match header.value {
        case MarkedHeader(kind) => step, next, node := ParseMarked(p, next, kind, top, children);
        case TextHeader => step, next, node := ParseTextNode(p, top, children);
        case ElementHeader => step, next, node, endTag := ParseElementNode(p, next, top, children);
      }
    }

    /** Comment, declaration, CDATA and unknown nodes. */
    method ParseMarked(p: nat, start: nat, kind: Kind, top: bool, children: seq<Node>)
      returns (step: Step, next: nat, node: Node)
      requires p <= start <= |buf| && !error
      requires
        var t := XmlTree.SkipWhiteSpace(buf[p..]);
        t != [] && R.Identify(t) == R.MarkedHeader(kind) && buf[start..] == t[|Open(kind)|..]
      modifies this`error
      ensures p <= next <= |buf| && (step.Added? ==> p < next && !error) && (step.Failed? || step.Added?)
      ensures
        R.ParseChildren(buf[p..], parsingDepth, top, children)
        == if step.Failed? then R.Bad else R.ParseChildren(buf[next..], parsingDepth, top, children + [node])
    {
      hide R.ParseTag, R.ParseDeep, R.Identify, FindMark, Decode, XmlTree.SkipWhiteSpace, Open, Close;
      step, next, node := Failed, start, Text([]);
      var found, end, after := ParseText(start, Close(kind));
      if !found {
        error := true;
        return;
      }
      assert buf[start..][..end - start] == buf[start..end];
      assert buf[start..][end - start + |Close(kind)|..] == buf[after..];
      var wellLocated :=
        top && (children == [] || (IsDeclaration(children[0]) && IsDeclaration(children[|children| - 1])));
      if kind.Declaration? && !wellLocated {
        error := true;
        return;
      }
      step, next, node := Added, after, Marked(kind, Decode(buf[start..end], 0, [], MARKUP));
    }

    /** XMLText::ParseDeep: text up to the next "<", which is left for the next node. */
    method ParseTextNode(p: nat, top: bool, children: seq<Node>) returns (step: Step, next: nat, node: Node)
      requires p < |buf| && !error
      requires
        var t := XmlTree.SkipWhiteSpace(buf[p..]);
        t != [] && R.Identify(t) == R.TextHeader
      modifies this`error
      ensures p <= next <= |buf| && (step.Added? ==> p < next && !error) && (step.Failed? || step.Added?)
      ensures
        R.ParseChildren(buf[p..], parsingDepth, top, children)
        == if step.Failed? then R.Bad else R.ParseChildren(buf[next..], parsingDepth, top, children + [node])
    {
      hide R.ParseChildren, R.Identify, FindMark, Decode, XmlTree.SkipWhiteSpace;
      step, next, node := Failed, p, Text([]);
      TextChild(buf[p..], parsingDepth, top, children);
      var found, end, after := ParseText(p, [LT]);
      if !found {
        error := true;
        return;
      }
      assert buf[p..][..end - p] == buf[p..end] && buf[p..][end - p..] == buf[end..];
      if after < |buf| {
        step, next, node := Added, after - 1, Text(Decode(buf[p..end], 0, [], TEXT_ELEMENT));
      }
    }

    /** An element: an end tag is handed up, other elements must be closed properly. */
    method ParseElementNode(p: nat, start: nat, top: bool, children: seq<Node>)
      returns (step: Step, next: nat, node: Node, endTag: Option<bytes>)
      requires p < start <= |buf| && !error
      requires
        var t := XmlTree.SkipWhiteSpace(buf[p..]);
        t != [] && R.Identify(t) == R.ElementHeader && buf[start..] == t[1..]
      modifies this
      ensures parsingDepth == old(parsingDepth) && p <= next <= |buf| && (step.Added? ==> p < next)
      ensures !step.Failed? ==> !error
      ensures step.Closed? <==> endTag.Some?
      ensures !step.Ended?
      ensures
        R.ParseChildren(buf[p..], parsingDepth, top, children)
        == match step
           case Failed => R.Bad
           case Closed => R.Good(children, endTag, buf[next..])
           case Added => R.ParseChildren(buf[next..], parsingDepth, top, children + [node])
           case Ended => R.Bad
      decreases |buf| - p, 0
    {
      hide R.ParseTag, R.ParseDeep, R.Identify, XmlTree.SkipWhiteSpace;
      step, next, node, endTag := Failed, p, Text([]), None;
      var after, closing, name, attributes, inside, tag := ParseElement(start);
      if after.None? {
        return;
      }
      if closing == R.CLOSING {
        step, next, endTag := Closed, after.value, Some(name);
        return;
      }
      var mismatch := false;
      if tag.None? {
        mismatch := closing == R.OPEN;
      } else {
        mismatch := closing != R.OPEN || tag.value != name;
      }
      if mismatch {
        error := true;
        return;
      }
      step, next, node := Added, after.value, Element(name, attributes, inside);
    }

    /** XMLDocument::Parse: the document node itself counts as one level. */
    method Parse() returns (ok: bool, children: seq<Node>)
      requires parsingDepth == 0
      modifies this
      ensures ok == R.Parse(buf).Some? == !error && (ok ==> R.Parse(buf) == Some(children)) && parsingDepth == 0
    {
      hide R.ParseDeep, XmlTree.SkipWhiteSpace;
      error := false;
      children := [];
      if buf == [] {
        error := true;
        return false, [];
      }
      var p := SkipWhiteSpace(0);
      assert buf[0..] == buf;
      if R.BOM <= buf[p..] {
        assert buf[p..][3..] == buf[p + 3..];
        p := p + 3;
      }
      if p == |buf| {
        error := true;
        return false, [];
      }
      var next, endTag;
      next, children, endTag := ParseDeep(p, true);
      ok := !error;
    }
  }

  /** What one round of the loop over the children does. */
  datatype Step = Failed | Ended | Closed | Added

  lemma FindStep(s: bytes, mark: bytes)
    requires s != []
    ensures FindMark(s, mark) == if mark <= s then 0 else 1 + FindMark(s[1..], mark)
  {
  }

  lemma FindNothing(s: bytes, mark: bytes)
    requires s == []
    ensures FindMark(s, mark) == 0
  {
  }

  lemma AttributesStep(s: bytes, before: seq<(bytes, bytes)>)
    ensures
      R.ParseAttributes(s, before)
      == var t := XmlTree.SkipWhiteSpace(s);
         if t == [] then None
         else if IsNameStart(t[0]) then
           var r := R.ParseAttribute(t);
           if r.None? || R.HasName(before, r.value.0.0) then None
           else R.ParseAttributes(r.value.1, before + [r.value.0])
         else if t[0] == GT then Some((false, before, t[1..]))
         else if t[0] == SLASH && |t| > 1 && t[1] == GT then Some((true, before, t[2..]))
         else None
  {
    hide R.ParseAttribute, R.HasName, XmlTree.SkipWhiteSpace;
  }

  /** Where text stands, it goes on to the next "<". */
  lemma TextChild(s: bytes, depth: nat, top: bool, before: seq<Node>)
    requires XmlTree.SkipWhiteSpace(s) != [] && R.Identify(XmlTree.SkipWhiteSpace(s)) == R.TextHeader
    ensures
      var end := FindMark(s, [LT]);
      && end > 0
      && R.ParseChildren(s, depth, top, before)
         == if end + 1 >= |s| then R.Bad
            else R.ParseChildren(s[end..], depth, top, before + [Text(Decode(s[..end], 0, [], TEXT_ELEMENT))])
  {
    hide R.ParseTag, R.ParseDeep, Decode;
    FindStep(s, [LT]);
    hide FindMark;
  }

  lemma ChildrenEnd(s: bytes, depth: nat, top: bool, before: seq<Node>)
    requires s == []
    ensures R.ParseChildren(s, depth, top, before) == R.Good(before, None, [])
  {
  }
}
