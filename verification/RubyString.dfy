/** Ruby strings as output buffers: memory is reserved first and written directly (`PG_RB_STR_ENSURE_CAPA`). */
module RubyString {
  import opened Bytes

  class OutString {
    var data: array<byte>
    var len: nat

    ghost predicate Valid()
      reads this
    {
      len <= data.Length
    }

    ghost function Contents(): seq<byte>
      reads this, data
      requires Valid()
    {
      data[..len]
    }

    constructor ()
      ensures Valid() && Contents() == [] && fresh(data)
    {
      data := new byte[0];
      len := 0;
    }

    /** `pg_rb_str_ensure_capa`: room for `expand` more bytes, moving the contents if need be. */
    method EnsureCapa(expand: nat)
      requires Valid()
      modifies this
      ensures Valid() && len == old(len) && len + expand <= data.Length
      ensures Contents() == old(Contents())
      ensures data == old(data) || fresh(data)
    {
      var capa := data.Length;
      if capa < len + expand {
        var larger := new byte[len + ((len + expand) * 2 - capa)](_ => 0);
        for i := 0 to len
          invariant unchanged(this) && larger[..i] == data[..i]
        {
          larger[i] := data[i];
        }
        data := larger;
      }
    }

    /** One byte into reserved memory. */
    method Put(c: byte)
      requires Valid() && len < data.Length
      modifies this`len, data
      ensures Valid() && len == old(len) + 1 && Contents() == old(Contents()) + [c]
    {
      data[len] := c;
      len := len + 1;
    }

    /** Bytes copied into reserved memory. */
    method Copy(text: seq<byte>)
      requires Valid() && len + |text| <= data.Length
      modifies this`len, data
      ensures Valid() && len == old(len) + |text| && Contents() == old(Contents()) + text
    {
      ghost var before := Contents();
      for i := 0 to |text|
        invariant Valid() && len == |before| + i && len + (|text| - i) <= data.Length
        invariant Contents() == before + text[..i]
      {
        assert text[..i + 1] == text[..i] + [text[i]];
        Put(text[i]);
      }
      assert text[..|text|] == text;
    }

    /** Bytes that were stored behind the contents become part of them. */
    method Extend(ghost before: seq<byte>, ghost text: seq<byte>, size: nat)
      requires Valid() && size == |text| && len + size <= data.Length == |before|
      requires data[..] == Splice(before, len, text)
      modifies this`len
      ensures Valid() && len == old(len) + size
      ensures Contents() == before[..old(len)] + text
    {
      len := len + size;
    }
  }

  /** Bytes stored where they belong: a copy into the buffer, or an element encoder's second pass. */
  method StoreText(text: seq<byte>, out: array<byte>, start: nat)
    requires start + |text| <= out.Length
    modifies out
    ensures out[..] == Splice(old(out[..]), start, text)
  {
    hide Splice;
    ghost var before := out[..];
    SpliceNothing(before, start);
    for i := 0 to |text|
      invariant out[..] == Splice(before, start, text[..i])
    {
      StoreNext(before, out[..], start, text[..i], text[i]);
      out[start + i] := text[i];
      assert text[..i + 1] == text[..i] + [text[i]];
    }
    assert text[..|text|] == text;
  }
}
