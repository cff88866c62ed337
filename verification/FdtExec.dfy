/** Both readers as they run: a cursor and recursion, and a pointer with a depth and flags. */
module FdtExec {
  import opened Bytes
  import opened Fdt
  import opened FdtScan

  method FindNameEnd(s: seq<byte>, i: nat) returns (e: nat)
    requires i <= |s|
    ensures e == NameEnd(s, i)
  {
    e := i;
    while e < |s| && s[e] != 0
      invariant i <= e <= |s| && NameEnd(s, i) == NameEnd(s, e)
    {
      e := e + 1;
    }
  }

  /** The static cursor of the tree builder. */
  class Walker {
    const s: seq<byte>
    var cursor: nat

    constructor (s: seq<byte>, at: nat)
      ensures this.s == s && cursor == at
    {
      this.s, cursor := s, at;
    }

    /** dt_build_node. */
    method BuildNode() returns (node: Node)
      modifies this
      ensures (node, cursor) == ParseNode(s, old(cursor))
      decreases |s| + 8 - cursor
    {
      hide RoundUp, ReadBe, NameEnd;
      var start := cursor;
      node := ReadName();
      if start >= |s| {
        return;
      }
      ghost var whole := ParseNode(s, start);
      while cursor + 4 <= |s|
        invariant cursor > start && ParseItems(s, cursor, node) == whole
        decreases |s| - cursor
      {
        var token := ReadBe(s, cursor);
        cursor := cursor + 4;
        if token == BEGIN_NODE {
          var child := BuildNode();
          node := node.(children := node.children + [child]);
        } else if token == PROP {
          if cursor + 8 > |s| {
            return;
          }
          var length, nameOff := ReadBe(s, cursor), ReadBe(s, cursor + 4);
          cursor := cursor + 8;
          node := node.(props := node.props + [Prop(nameOff, Clip(s, cursor, length))]);
          cursor := cursor + RoundUp(length, 4);
        } else if token != NOP {
          return;
        }
      }
    }

    /** The node's name, and the cursor behind its padding. */
    method ReadName() returns (node: Node)
      modifies this
      ensures cursor >= old(cursor) + 4
      ensures old(cursor) >= |s| ==> node == Node([], [], []) && cursor == old(cursor) + 4
      ensures old(cursor) < |s| ==> var e := NameEnd(s, old(cursor));
                node == Node(s[old(cursor)..e], [], []) && cursor == old(cursor) + RoundUp(e - old(cursor) + 1, 4)
    {
      if cursor >= |s| {
        node := Node([], [], []);
        cursor := cursor + 4;
        return;
      }
      var e := FindNameEnd(s, cursor);
      node := Node(s[cursor..e], [], []);
      cursor := cursor + RoundUp(e - cursor + 1, 4);
    }
  }

  /** dt_parse on the structure block. */
  method DtParse(s: seq<byte>) returns (root: Option<Node>)
    ensures root == ParseBlock(s, 0)
  {
    hide ReadBe, ParseNode;
    var w := new Walker(s, 0);
    while w.cursor + 4 <= |s|
      invariant fresh(w) && w.s == s && ParseBlock(s, 0) == ParseBlock(s, w.cursor)
      decreases |s| - w.cursor
    {
      var token := ReadBe(s, w.cursor);
      w.cursor := w.cursor + 4;
      if token == BEGIN_NODE {
        var node := w.BuildNode();
        return Some(node);
      }
      if token == END {
        return None;
      }
    }
    root := None;
  }

  /** parse_fdt on the structure and strings blocks of a blob whose header it accepted. */
  method ParseFdt(s: seq<byte>, strings: seq<byte>) returns (found: Found)
    ensures found == ScanFrom(s, strings, 0, START)
  {
    hide RoundUp, ReadBe, NameEnd, StringAt, BeginNode, EndNode, SeeProp;
    var at, c := 0, START;
    while at + 4 <= |s|
      invariant ScanFrom(s, strings, at, c) == ScanFrom(s, strings, 0, START)
      decreases |s| - at
    {
      var token := ReadBe(s, at);
      if token == BEGIN_NODE {
        var e := FindNameEnd(s, at + 4);
        if e == |s| {
          return c.found;
        }
        c := BeginNode(c, s[at + 4..e]);
        at := at + 4 + RoundUp(e - (at + 4) + 1, 4);
      } else if token == END_NODE {
        if c.depth == 0 {
          return c.found;
        }
        c := EndNode(c);
        at := at + 4;
      } else if token == PROP {
        if at + 12 > |s| {
          return c.found;
        }
        var length := ReadBe(s, at + 4);
        if length > |s| - (at + 12) {
          return c.found;
        }
        var name := StringAt(strings, ReadBe(s, at + 8));
        if name.None? {
          return c.found;
        }
        c := SeeProp(c, name.value, s[at + 12..at + 12 + length]);
        at := at + 12 + RoundUp(length, 4);
      } else if token == NOP {
        at := at + 4;
      } else {
        return c.found;
      }
    }
    found := c.found;
  }
}
