/** Both printers followed by the parser, on the heap: a tree comes back with the same value. */
module EndToEnd {
  import opened PrintText
  import opened RoundTrip
  import opened Nodes
  import opened Allocator
  import opened TreeText
  import opened Requests
  import Printer
  import BufferedPrinter
  import Parser

  /** Prints a tree with either printer, and parses the text up to its terminator into a tree of its own. */
  method PrintAndParse(h: Heap, item: Node, buffered: bool, prebuffer: nat, fmt: bool, ghost t: Tree)
    returns (c: Node?, ghost u: Tree)
    requires item == t.node && Valid(t, true) && WellTyped(t)
    requires buffered ==> Peak(ToJson(t), 0, fmt) <= BufferedPrinter.Ceiling(prebuffer)
    modifies h
    ensures c != null && c == u.node && Parser.Whole(u) && ToJson(u) == ToJson(t)
    ensures fresh(Objects(u, true)) && Valid(t, true)
  {
    hide Valid, WellTyped, Text, Peak, Holds, Objects, ObjectsOf, Parser.Whole;
    HeapApart(h, t, true);
    Parts(t, true);
    assert allocated(Objects(t, true));
    PrintableValue(t);
    DocumentRoundTrip(ToJson(t), fmt);
    var out;
    if buffered {
      var start;
      ghost var p;
      out, start, p := BufferedPrinter.PrintBuffered(h, item, prebuffer, fmt, t);
    } else {
      out := Printer.Print(h, item, fmt, t);
    }
    var end, ep;
    c, end, ep, u := Parser.Parse(h, out, true, CString(out, Text(ToJson(t), 0, fmt)));
  }
}
