/** The growing text buffer (tb_grow, tb_appendf). */
module TextBuffer {

  function Concat(pieces: seq<string>): string {
    if pieces == [] then [] else Concat(pieces[..|pieces| - 1]) + pieces[|pieces| - 1]
  }

  class TextBuf {
    var data: array<char>        // capacity is data.Length; a zero-length array stands for NULL
    var off: nat
    ghost var log: seq<string>   // every piece appended so far
    ghost var copied: nat        // characters moved by realloc so far

    ghost predicate Valid()
      reads this, data
    {
      && (off < data.Length || off == data.Length == 0)
      && data[..off] == Concat(log)
      && (off < data.Length ==> data[off] == '\0')
      && copied <= data.Length
      && (data.Length <= 256 || data.Length < 2 * (off + 1))
    }

    constructor ()
      ensures Valid() && fresh(data) && log == []
    {
      data := new char[0];
      off, log, copied := 0, [], 0;
    }

    /** tb_grow: room for `need` characters and the NUL after them. */
    method Grow(need: nat)
      requires Valid()
      modifies this
      ensures off == old(off) && log == old(log) && off + need + 1 <= data.Length
      ensures data[..off] == old(data[..off]) && (data == old(data) || fresh(data))
      ensures copied <= data.Length
      ensures data.Length <= 256 || data.Length < 2 * (off + need + 1)
    {
      if off + need + 1 <= data.Length { return; }
      var cap := if data.Length > 0 then data.Length else 256;
      while cap < off + need + 1
        invariant cap >= 1 && cap >= data.Length
        invariant cap <= 256 || cap < 2 * (off + need + 1)
        invariant cap == data.Length || cap >= 2 * data.Length
        decreases off + need + 1 - cap
      {
        cap := cap * 2;
      }
      var p := new char[cap];
      forall i | 0 <= i < data.Length { p[i] := data[i]; }
      copied := copied + data.Length;
      assert p[..off] == data[..off];
      data := p;
    }

    /** tb_appendf, given the formatted text. */
    method Append(s: string)
      requires Valid()
      modifies this, data
      ensures Valid() && log == old(log) + [s] && data[..off] == old(data[..off]) + s
      ensures data == old(data) || fresh(data)
    {
      Grow(|s|);
      ghost var before := data[..off];
      forall i | 0 <= i < |s| { data[off + i] := s[i]; }
      data[off + |s|] := '\0';
      assert data[..off + |s|] == before + s;
      assert (log + [s])[..|log|] == log;
      log := log + [s];
      off := off + |s|;
    }
  }
}
