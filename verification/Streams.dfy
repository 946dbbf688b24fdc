/** The zero-terminated input stream and the growing output stream every parser
    and printer of the library is written against. */
module Streams {
  import opened Common

  class StringStream {
    const text: Bytes
    var pos: nat

    constructor (text: Bytes)
      ensures this.text == text && pos == 0
    {
      this.text := text;
      pos := 0;
    }

    method Peek() returns (c: Byte)
      ensures c == Common.Peek(text, pos)
    {
      c := if pos < |text| then text[pos] else 0;
    }

    method Take() returns (c: Byte)
      modifies this
      ensures c == Common.Peek(text, old(pos)) && pos == old(pos) + 1
    {
      c := if pos < |text| then text[pos] else 0;
      pos := pos + 1;
    }

    /** Takes the next code unit when it is the expected one. */
    method Consume(wanted: Byte) returns (found: bool)
      modifies this
      ensures found <==> Common.Peek(text, old(pos)) == wanted
      ensures pos == if found then old(pos) + 1 else old(pos)
    {
      var c := Peek();
      found := c == wanted;
      if found { pos := pos + 1; }
    }
  }

  class OutputStream {
    var out: Bytes

    constructor ()
      ensures out == []
    {
      out := [];
    }

    method Put(c: Byte)
      modifies this
      ensures out == old(out) + [c]
    {
      out := out + [c];
    }
  }
}
