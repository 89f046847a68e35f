/** The printer as cJSON runs it: a byte buffer that grows on demand or is fixed, an offset that
    strlen repairs after each child. Every method writes exactly the pure text of JsonPrinter, and
    its success is decided exactly. */
module JsonWriter {
  import opened Bytes
  import opened JsonTree
  import opened JsonPrinter
  import JsonString

  /** The counting pass of print_string_ptr. */
  method CountEscapes(s: bytes) returns (escapeCharacters: nat)
    ensures escapeCharacters == JsonString.CountExtra(s)
  {
    escapeCharacters := 0;
    var i := 0;
    assert s[..0] == [];
    while i < |s|
      invariant 0 <= i <= |s|
      invariant escapeCharacters == JsonString.CountExtra(s[..i])
    {
      JsonString.EscapeSnoc(s[..i], s[i]);
      assert s[..i + 1] == s[..i] + [s[i]];
      if s[i] == 34 || s[i] == 92 || s[i] == 8 || s[i] == 12 || s[i] == 10 || s[i] == 13 || s[i] == 9 {
        escapeCharacters := escapeCharacters + 1;
      } else if s[i] < 32 {
        escapeCharacters := escapeCharacters + 5;
      }
      i := i + 1;
    }
    assert s[..|s|] == s;
  }

  /** Whether print_value gets to write anything when there is no bound but INT_MAX. */
  predicate Starts(t: Json, depth: nat) {
    match t
    case String(s) => |JsonString.Quoted(s)| + 2 <= INT_MAX
    case Array(_) => depth < NESTING_LIMIT
    case Object(_) => depth < NESTING_LIMIT
    case _ => true
  }

  class PrintBuffer {
    var buffer: array<byte>
    var length: nat
    var offset: nat
    var depth: nat
    const noalloc: bool
    const format: bool
    /** Whether the allocator hooks offer realloc; otherwise `ensure` copies by hand. */
    const reallocate: bool
    /** End of the bytes the last `ensure` reserved; nothing is written at or past it. */
    ghost var reserved: nat
    /** A copy of `ensure` has read past the end of the old buffer. */
    ghost var overread: bool

    ghost predicate Valid()
      reads this
    {
      length <= buffer.Length && (!noalloc ==> buffer.Length == length) && length <= INT_MAX &&
      reserved <= length && (offset < length || offset == length == 0)
    }

    /** The most bytes this buffer can come to have. */
    ghost function Capacity(): int
      reads `length
    {
      if noalloc then length else INT_MAX
    }

    /** The buffer holds `s` and its terminator, and the offset has not passed the end of `s`. */
    ghost predicate Terminated(s: bytes)
      reads this, buffer
    {
      |s| < length <= buffer.Length && buffer[..|s|] == s && buffer[|s|] == NUL && offset <= |s|
    }

    constructor (b: array<byte>, length: nat, noalloc: bool, format: bool, reallocate: bool)
      requires length <= b.Length && length <= INT_MAX && (!noalloc ==> length == b.Length)
      ensures Valid() && buffer == b && this.length == length && offset == 0 && depth == 0 && !overread
      ensures this.noalloc == noalloc && this.format == format && this.reallocate == reallocate
    {
      buffer, this.length, offset, depth, reserved, overread := b, length, 0, 0, 0, false;
      this.noalloc, this.format, this.reallocate := noalloc, format, reallocate;
    }

    /** memcpy of the first `n` bytes of the buffer. A byte past its end has no defined value. */
    method CopyOut(target: array<byte>, n: nat)
      requires n <= target.Length && target != buffer
      modifies target, this`overread
      ensures forall i :: 0 <= i < n && i < buffer.Length ==> target[i] == buffer[i]
      ensures overread == (old(overread) || n > buffer.Length)
    {
      var i := 0;
      while i < n
        invariant 0 <= i <= n
        invariant forall k :: 0 <= k < i && k < buffer.Length ==> target[k] == buffer[k]
        invariant overread == (old(overread) || i > buffer.Length)
      {
        if i < buffer.Length {
          target[i] := buffer[i];
        } else {
          target[i] := *;
          overread := true;
        }
        i := i + 1;
      }
    }

    /** ensure: room for `needed` bytes at the offset and one to spare. Growing keeps everything
        written so far; without realloc it copies one byte more than that, which is past the end of
        the old buffer exactly when that buffer is empty. */
    method Ensure(needed: nat) returns (ok: bool)
      requires Valid()
      modifies this`buffer, this`length, this`reserved, this`overread
      ensures Valid() && (buffer == old(buffer) || fresh(buffer))
      ensures noalloc ==> buffer == old(buffer)
      ensures buffer[..offset] == old(buffer[..offset])
      ensures Capacity() == old(Capacity())
      ensures ok <==> offset + needed + 1 <= Capacity()
      ensures ok ==> reserved == offset + needed < length
      ensures overread == (old(overread) || (ok && !reallocate && old(length) == 0))
    {
      if length > 0 && offset >= length { return false; }
      if needed > INT_MAX { return false; }
      var total := needed + offset + 1;
      if total <= length {
        reserved := offset + needed;
        return true;
      }
      if noalloc { return false; }
      var newsize;
      if total > INT_MAX / 2 {
        if total > INT_MAX { return false; }
        newsize := INT_MAX;
      } else {
        newsize := total * 2;
      }
      var newbuffer := new byte[newsize];
      CopyOut(newbuffer, if reallocate then length else offset + 1);
      length := newsize;
      assert newbuffer[..offset] == buffer[..offset];
      buffer := newbuffer;
      reserved := offset + needed;
      return true;
    }

    /** Stores bytes (strcpy, memcpy, or one assignment after another) inside the reserved room. */
    method Put(at: nat, s: bytes)
      requires Valid() && offset <= at && at + |s| <= reserved
      modifies buffer
      ensures buffer[..at + |s|] == old(buffer[..at]) + s
    {
      var i := 0;
      while i < |s|
        invariant 0 <= i <= |s|
        invariant buffer[..at + i] == old(buffer[..at]) + s[..i]
      {
        buffer[at + i] := s[i];
        assert s[..i + 1] == s[..i] + [s[i]];
        assert buffer[..at + (i + 1)] == buffer[..at + i] + [s[i]];
        i := i + 1;
      }
      assert s[..|s|] == s;
    }

    /** update_offset: strlen from the offset. */
    method UpdateOffset(ghost s: bytes)
      requires Valid() && Terminated(s) && NulFree(s[offset..])
      modifies this`offset
      ensures Valid() && offset == |s| && buffer[..offset] == s
    {
      forall k | offset <= k < |s| ensures buffer[k] != NUL {
        assert s[offset..][k - offset] == s[k] == buffer[..|s|][k];
      }
      var n := 0;
      while buffer[offset + n] != NUL
        invariant offset + n <= |s|
        decreases |s| - n
      {
        n := n + 1;
      }
      offset := offset + n;
    }

    /** One turn of print_string_ptr's writing loop. sprintf terminates what it writes, inside the
        reserved room; the next byte overwrites that. */
    method PutEscaped(at: nat, b: byte)
      requires Valid() && offset <= at && at + |JsonString.EscapeByte(b)| < reserved
      modifies buffer
      ensures buffer[..at + |JsonString.EscapeByte(b)|] == old(buffer[..at]) + JsonString.EscapeByte(b)
    {
      ghost var before := buffer[..at];
      if b > 31 && b != QUOTE && b != BACKSLASH {
        buffer[at] := b;
        assert buffer[..at + 1] == before + [b];
        return;
      }
      buffer[at] := BACKSLASH;
      if b == 92 || b == 34 {
        buffer[at + 1] := b;
      } else if b == 8 {
        buffer[at + 1] := 98;
      } else if b == 12 {
        buffer[at + 1] := 102;
      } else if b == 10 {
        buffer[at + 1] := 110;
      } else if b == 13 {
        buffer[at + 1] := 114;
      } else if b == 9 {
        buffer[at + 1] := 116;
      } else {
        assert buffer[..at + 1] == before + [BACKSLASH];
        Put(at + 1, [LOWER_U, ZERO, ZERO, HexDigit(b / 16), HexDigit(b % 16), NUL]);
        assert buffer[..at + 6] == buffer[..at + 7][..at + 6];
        return;
      }
      assert buffer[..at + 2] == before + JsonString.EscapeByte(b);
    }

    /** print_string_ptr on a C string: count the escapes, reserve, then copy or escape. */
    method PrintString(s: bytes) returns (ok: bool)
      requires Valid() && NulFree(s)
      modifies this`buffer, this`length, this`reserved, this`overread, buffer
      ensures buffer == old(buffer) || fresh(buffer)
      ensures noalloc ==> buffer == old(buffer)
      ensures Valid() && Capacity() == old(Capacity())
      ensures ok <==> offset + |JsonString.Quoted(s)| + 2 <= Capacity()
      ensures ok ==> Terminated(old(buffer[..offset]) + JsonString.Quoted(s))
      ensures overread == (old(overread) || (ok && !reallocate && old(length) == 0)) && (ok ==> length > 0)
    {
      hide JsonString.Escape, JsonString.CountExtra, JsonString.Quoted, Terminated;
      var escapeCharacters := CountEscapes(s);
      QuotedLength(s);
      ok := Ensure(|s| + escapeCharacters + 3);
      if ok { WriteString(s, escapeCharacters); }
    }

    /** The writing half of print_string_ptr: copy when nothing was counted, escape otherwise. */
    method WriteString(s: bytes, escapeCharacters: nat)
      requires Valid() && escapeCharacters == JsonString.CountExtra(s)
      requires offset + |JsonString.Quoted(s)| + 1 == reserved < length
      modifies buffer
      ensures Terminated(old(buffer[..offset]) + JsonString.Quoted(s))
    {
      hide JsonString.Escape, JsonString.CountExtra, JsonString.Quoted, Terminated;
      ghost var before := buffer[..offset];
      var outputLength := |s| + escapeCharacters;
      QuotedLength(s);
      Put(offset, [QUOTE]);
      assert buffer[..offset + 1] == before + [QUOTE];
      if escapeCharacters == 0 {
        JsonString.NoExtraIsIdentity(s);
        Put(offset + 1, s);
      } else {
        PutAllEscaped(s);
      }
      assert buffer[..offset + 1 + outputLength] == before + [QUOTE] + JsonString.Escape(s);
      Put(offset + 1 + outputLength, [QUOTE, NUL]);
      FinishString(before, s);
    }

    /** The writing loop of print_string_ptr. */
    method PutAllEscaped(s: bytes)
      requires Valid() && offset + 1 + |JsonString.Escape(s)| < reserved
      modifies buffer
      ensures buffer[..offset + 1 + |JsonString.Escape(s)|] == old(buffer[..offset + 1]) + JsonString.Escape(s)
    {
      hide JsonString.EscapeByte;
      var at := offset + 1;
      var i := 0;
      assert s[..0] == [];
      while i < |s|
        invariant 0 <= i <= |s|
        invariant at == offset + 1 + |JsonString.Escape(s[..i])| <= offset + 1 + |JsonString.Escape(s)|
        invariant buffer[..at] == old(buffer[..offset + 1]) + JsonString.Escape(s[..i])
      {
        JsonString.EscapeSnoc(s[..i], s[i]);
        assert s[..i + 1] == s[..i] + [s[i]];
        EscapePrefixFits(s, i);
        PutEscaped(at, s[i]);
        at := at + |JsonString.EscapeByte(s[i])|;
        i := i + 1;
      }
      assert s[..|s|] == s;
    }

    /** A leaf's reserved text and terminator. */
    method PutText(text: bytes)
      requires Valid() && offset + |text| + 1 <= reserved < length
      modifies buffer
      ensures Terminated(old(buffer[..offset]) + text)
    {
      ghost var before := buffer[..offset];
      Put(offset, text + [NUL]);
      var e := offset + |text|;
      assert before + (text + [NUL]) == before + text + [NUL];
      assert buffer[e] == buffer[..e + 1][e];
      assert buffer[..e] == buffer[..e + 1][..e];
    }

    /** print_number for a C int: sprintf into a scratch buffer of 26 bytes, then copy. */
    method PrintNumber(n: int) returns (ok: bool)
      requires Valid() && IsCInt(n)
      modifies this`buffer, this`length, this`reserved, this`overread, this`offset, buffer
      ensures buffer == old(buffer) || fresh(buffer)
      ensures noalloc ==> buffer == old(buffer)
      ensures Capacity() == old(Capacity())
      ensures ok <==> old(offset) + |IntText(n)| + 2 <= Capacity()
      ensures ok ==> Valid() && old(offset) <= offset && Terminated(old(buffer[..offset]) + IntText(n))
      ensures overread == (old(overread) || (ok && !reallocate && old(length) == 0)) && (ok ==> length > 0)
    {
      var numberBuffer := IntText(n);
      IntTextLength(n);
      if |numberBuffer| > 25 { return false; }
      ok := Ensure(|numberBuffer| + 1);
      if !ok { return; }
      PutText(numberBuffer);
      offset := offset + |numberBuffer|;
    }

    /** print_value. On success the text and its terminator stand at the old offset, everything
        before is as it was, and the offset is somewhere in the text. It succeeds exactly when the
        containers fit under the nesting limit and the text plus two bytes fit the buffer. */
    method PrintValue(t: Json) returns (ok: bool)
      requires Valid() && depth <= NESTING_LIMIT && Printable(t)
      modifies this, buffer
      ensures buffer == old(buffer) || fresh(buffer)
      ensures noalloc ==> buffer == old(buffer)
      ensures Capacity() == old(Capacity())
      ensures ok <==> old(depth) + Nesting(t) <= NESTING_LIMIT &&
                      old(offset) + |Text(t, old(depth), format)| + 2 <= Capacity()
      ensures ok ==> Valid() && depth == old(depth) && old(offset) <= offset &&
                     Terminated(old(buffer[..offset]) + Text(t, old(depth), format))
      ensures overread == (old(overread) ||
                           (!noalloc && !reallocate && old(length) == 0 && Starts(t, old(depth))))
      ensures ok ==> length > 0
      decreases t, 1
    {
      hide ItemsText, MembersText, ItemsNesting, MembersNesting, IntText, JsonString.Quoted;
      match t
      case Null =>
        ok := PrintLiteral([110, 117, 108, 108]);
      case False =>
        ok := PrintLiteral([102, 97, 108, 115, 101]);
      case True =>
        ok := PrintLiteral([116, 114, 117, 101]);
      case Number(n) =>
        IntTextLength(n);
        ok := PrintNumber(n);
      case String(s) =>
        ok := PrintString(s);
      case Array(items) =>
        ok := PrintArray(items);
      case Object(members) =>
        ok := PrintObject(members);
    }

    /** A literal: ensure, then strcpy. */
    method PrintLiteral(text: bytes) returns (ok: bool)
      requires Valid()
      modifies this`buffer, this`length, this`reserved, this`overread, buffer
      ensures buffer == old(buffer) || fresh(buffer)
      ensures noalloc ==> buffer == old(buffer)
      ensures Valid() && Capacity() == old(Capacity())
      ensures ok <==> offset + |text| + 2 <= Capacity()
      ensures ok ==> Terminated(old(buffer[..offset]) + text)
      ensures overread == (old(overread) || (ok && !reallocate && old(length) == 0)) && (ok ==> length > 0)
    {
      ok := Ensure(|text| + 1);
      if ok { PutText(text); }
    }

    /** print_array. */
    method PrintArray(items: seq<Json>) returns (ok: bool)
      requires Valid() && depth <= NESTING_LIMIT && Printable(Array(items))
      modifies this, buffer
      ensures buffer == old(buffer) || fresh(buffer)
      ensures noalloc ==> buffer == old(buffer)
      ensures Capacity() == old(Capacity())
      ensures ok <==> old(depth) + Nesting(Array(items)) <= NESTING_LIMIT &&
                      old(offset) + |Text(Array(items), old(depth), format)| + 2 <= Capacity()
      ensures ok ==> Valid() && depth == old(depth) && old(offset) <= offset &&
                     Terminated(old(buffer[..offset]) + Text(Array(items), old(depth), format))
      ensures overread == (old(overread) ||
                           (!noalloc && !reallocate && old(length) == 0 && Starts(Array(items), old(depth))))
      ensures ok ==> length > 0
      decreases items, 1
    {
      hide ItemsText, ItemsNesting, Text, Terminated, Nesting, ElementText, Capacity, Printable;
      ArrayParts(items, depth, format);
      if depth >= NESTING_LIMIT { return false; }
      ghost var before := buffer[..offset];
      ok := Append(1, [OPEN_BRACKET], false);
      if !ok { return; }
      depth := depth + 1;
      ok := PrintElements(items);
      hide *;
      assert before + [OPEN_BRACKET] + (ItemsText(items, 0, old(depth) + 1, format) + [CLOSE_BRACKET]) ==
             before + ([OPEN_BRACKET] + (ItemsText(items, 0, old(depth) + 1, format) + [CLOSE_BRACKET]));
    }

    /** The elements and the closing bracket. */
    method PrintElements(items: seq<Json>) returns (ok: bool)
      requires Valid() && length > 0 && 1 <= depth <= NESTING_LIMIT && Printable(Array(items))
      modifies this, buffer
      ensures buffer == old(buffer) || fresh(buffer)
      ensures noalloc ==> buffer == old(buffer)
      ensures Capacity() == old(Capacity())
      ensures ok <==> old(depth) + ItemsNesting(items, 0) <= NESTING_LIMIT &&
                      old(offset) + |ItemsText(items, 0, old(depth), format)| + 3 <= Capacity()
      ensures ok ==> Valid() && depth == old(depth) - 1 && old(offset) <= offset &&
                     Terminated(old(buffer[..offset]) + (ItemsText(items, 0, old(depth), format) + [CLOSE_BRACKET]))
      ensures overread == old(overread) && (ok ==> length > 0)
      decreases items, 0, |items| + 1
    {
      hide ItemsText, ItemsNesting, Text, Terminated, Nesting, ElementText, Capacity, Printable;
      ghost var full := buffer[..offset] + (ItemsText(items, 0, depth, format) + [CLOSE_BRACKET]);
      var i := 0;
      while i < |items|
        invariant 0 <= i <= |items|
        invariant Valid() && depth == old(depth) && old(offset) <= offset
        invariant buffer == old(buffer) || fresh(buffer)
        invariant noalloc ==> buffer == old(buffer)
        invariant Capacity() == old(Capacity())
        invariant length > 0 && overread == old(overread)
        invariant buffer[..offset] + (ItemsText(items, i, depth, format) + [CLOSE_BRACKET]) == full
        invariant depth + ItemsNesting(items, 0) <= NESTING_LIMIT <==> depth + ItemsNesting(items, i) <= NESTING_LIMIT
      {
        ItemPrintable(items, i);
        NextItem(items, i, depth, format, buffer[..offset]);
        ok := PrintElement(items, i);
        if !ok { return; }
        i := i + 1;
      }
      NoMoreItems(items, depth, format);
      assert buffer[..offset] + [CLOSE_BRACKET] == full;
      ok := CloseArray();
    }

    /** The end of print_array. */
    method CloseArray() returns (ok: bool)
      requires Valid() && length > 0 && depth >= 1
      modifies this, buffer
      ensures buffer == old(buffer) || fresh(buffer)
      ensures noalloc ==> buffer == old(buffer)
      ensures Capacity() == old(Capacity())
      ensures ok <==> old(offset) + 3 <= Capacity()
      ensures ok ==> Valid() && depth == old(depth) - 1 && offset == old(offset)
      ensures ok ==> Terminated(old(buffer[..offset]) + [CLOSE_BRACKET])
      ensures overread == old(overread) && (ok ==> length > 0)
    {
      ok := Ensure(2);
      if !ok { return; }
      PutText([CLOSE_BRACKET]);
      depth := depth - 1;
    }

    /** One turn of print_array's loop: the child, update_offset, and the separator if one follows. */
    method PrintElement(items: seq<Json>, i: nat) returns (ok: bool)
      requires Valid() && length > 0 && depth <= NESTING_LIMIT && i < |items| && Printable(items[i])
      modifies this, buffer
      ensures buffer == old(buffer) || fresh(buffer)
      ensures noalloc ==> buffer == old(buffer)
      ensures Capacity() == old(Capacity())
      ensures ok <==> old(depth) + Nesting(items[i]) <= NESTING_LIMIT &&
                      old(offset) + |ElementText(items, i, old(depth), format)| + 2 <= Capacity()
      ensures ok ==> Valid() && depth == old(depth) &&
                     buffer[..offset] == old(buffer[..offset]) + ElementText(items, i, old(depth), format)
      ensures overread == old(overread) && (ok ==> length > 0)
      decreases items, 0, |items| - i
    {
      hide Text, Nesting, Terminated;
      ok := PrintItem(items[i]);
      if !ok { return; }
      if i + 1 < |items| {
        ok := Append((if format then 2 else 1) + 1, Separator(format), true);
      }
    }

    /** Reserve, write, and advance the offset: the step between children. */
    method Append(needed: nat, s: bytes, terminate: bool) returns (ok: bool)
      requires Valid() && |s| + (if terminate then 1 else 0) <= needed
      modifies this`buffer, this`length, this`reserved, this`overread, this`offset, buffer
      ensures buffer == old(buffer) || fresh(buffer)
      ensures noalloc ==> buffer == old(buffer)
      ensures Capacity() == old(Capacity())
      ensures ok <==> old(offset) + needed + 1 <= Capacity()
      ensures ok ==> Valid() && buffer[..offset] == old(buffer[..offset]) + s
      ensures overread == (old(overread) || (ok && !reallocate && old(length) == 0)) && (ok ==> length > 0)
      ensures old(length) == 0 && needed < INT_MAX ==> (ok <==> !noalloc)
    {
      ok := Ensure(needed);
      if !ok { return; }
      ghost var before := buffer[..offset];
      if terminate {
        Put(offset, s + [NUL]);
        assert buffer[..offset + |s|] == buffer[..offset + |s| + 1][..offset + |s|] == before + s;
      } else {
        Put(offset, s);
      }
      offset := offset + |s|;
    }

    /** One child: print_value, then update_offset. */
    method PrintItem(t: Json) returns (ok: bool)
      requires Valid() && length > 0 && depth <= NESTING_LIMIT && Printable(t)
      modifies this, buffer
      ensures buffer == old(buffer) || fresh(buffer)
      ensures noalloc ==> buffer == old(buffer)
      ensures Capacity() == old(Capacity())
      ensures ok <==> old(depth) + Nesting(t) <= NESTING_LIMIT &&
                      old(offset) + |Text(t, old(depth), format)| + 2 <= Capacity()
      ensures ok ==> Valid() && depth == old(depth) && buffer[..offset] == old(buffer[..offset]) + Text(t, old(depth), format)
      ensures overread == old(overread) && (ok ==> length > 0)
      decreases t, 2
    {
      ghost var before := buffer[..offset];
      ghost var text := Text(t, depth, format);
      ok := PrintValue(t);
      if !ok { return; }
      TextNulFree(t, depth, format);
      UpdateOffset(before + text);
    }

    /** print_object. */
    method PrintObject(members: seq<Member>) returns (ok: bool)
      requires Valid() && depth <= NESTING_LIMIT && Printable(Object(members))
      modifies this, buffer
      ensures buffer == old(buffer) || fresh(buffer)
      ensures noalloc ==> buffer == old(buffer)
      ensures Capacity() == old(Capacity())
      ensures ok <==> old(depth) + Nesting(Object(members)) <= NESTING_LIMIT &&
                      old(offset) + |Text(Object(members), old(depth), format)| + 2 <= Capacity()
      ensures ok ==> Valid() && depth == old(depth) && old(offset) <= offset &&
                     Terminated(old(buffer[..offset]) + Text(Object(members), old(depth), format))
      ensures overread == (old(overread) ||
                           (!noalloc && !reallocate && old(length) == 0 && Starts(Object(members), old(depth))))
      ensures ok ==> length > 0
      decreases members, 1
    {
      hide MembersText, MembersNesting, Text, Terminated, Nesting, MemberText, CloseObject, Capacity;
      ObjectParts(members, depth, format);
      if depth >= NESTING_LIMIT { return false; }
      ghost var before := buffer[..offset];
      ok := Append((if format then 2 else 1) + 1, OpenObject(format), false);
      if !ok { return; }
      depth := depth + 1;
      ok := PrintMembers(members);
      hide *;
      assert before + OpenObject(format) + (MembersText(members, 0, old(depth) + 1, format) + CloseObject(old(depth), format)) ==
             before + (OpenObject(format) + (MembersText(members, 0, old(depth) + 1, format) + CloseObject(old(depth), format)));
    }

    /** The members and the closing brace. */
    method PrintMembers(members: seq<Member>) returns (ok: bool)
      requires Valid() && length > 0 && 1 <= depth <= NESTING_LIMIT && Printable(Object(members))
      modifies this, buffer
      ensures buffer == old(buffer) || fresh(buffer)
      ensures noalloc ==> buffer == old(buffer)
      ensures Capacity() == old(Capacity())
      ensures ok <==> old(depth) + MembersNesting(members, 0) <= NESTING_LIMIT &&
                      old(offset) + |MembersText(members, 0, old(depth), format)| + |CloseObject(old(depth) - 1, format)| + 2 <= Capacity()
      ensures ok ==> Valid() && depth == old(depth) - 1 && old(offset) <= offset &&
                     Terminated(old(buffer[..offset]) +
                                (MembersText(members, 0, old(depth), format) + CloseObject(old(depth) - 1, format)))
      ensures overread == old(overread) && (ok ==> length > 0)
      decreases members, 0, |members| + 1
    {
      hide MembersText, MembersNesting, Text, Terminated, Nesting, MemberText, CloseObject, Capacity;
      ghost var close := CloseObject(depth - 1, format);
      ghost var full := buffer[..offset] + (MembersText(members, 0, depth, format) + close);
      var i := 0;
      while i < |members|
        invariant 0 <= i <= |members|
        invariant Valid() && depth == old(depth) && old(offset) <= offset
        invariant buffer == old(buffer) || fresh(buffer)
        invariant noalloc ==> buffer == old(buffer)
        invariant Capacity() == old(Capacity())
        invariant length > 0 && overread == old(overread)
        invariant buffer[..offset] + (MembersText(members, i, depth, format) + close) == full
        invariant depth + MembersNesting(members, 0) <= NESTING_LIMIT <==> depth + MembersNesting(members, i) <= NESTING_LIMIT
      {
        NextMember(members, i, depth, format, buffer[..offset], close);
        ok := PrintMember(members, i);
        if !ok { return; }
        i := i + 1;
      }
      NoMoreMembers(members, depth, format, close);
      assert buffer[..offset] + close == full;
      ok := CloseBrace();
    }

    /** The key of a member with its indentation and colon. */
    method PrintLead(key: bytes) returns (ok: bool)
      requires Valid() && length > 0 && NulFree(key)
      modifies this`buffer, this`length, this`reserved, this`overread, this`offset, buffer
      ensures buffer == old(buffer) || fresh(buffer)
      ensures noalloc ==> buffer == old(buffer)
      ensures Capacity() == old(Capacity())
      ensures ok <==> old(offset) + |Lead(key, depth, format)| + 1 <= Capacity()
      ensures ok ==> Valid() && buffer[..offset] == old(buffer[..offset]) + Lead(key, depth, format)
      ensures overread == old(overread) && (ok ==> length > 0)
    {
      hide JsonString.Quoted, Terminated;
      ghost var before := buffer[..offset];
      var tabs := if format then Tabs(depth) else [];
      if format {
        ok := Append(depth, tabs, false);
        if !ok { return; }
      }
      assert buffer[..offset] == before + tabs;
      ok := PrintKey(key);
      if !ok { return; }
      var colon := if format then [COLON, TAB] else [COLON];
      ok := Append(|colon|, colon, false);
      if !ok { return; }
      assert before + tabs + JsonString.Quoted(key) + colon == before + (tabs + JsonString.Quoted(key) + colon);
    }

    /** print_string_ptr on the key, then update_offset. */
    method PrintKey(key: bytes) returns (ok: bool)
      requires Valid() && length > 0 && NulFree(key)
      modifies this`buffer, this`length, this`reserved, this`overread, this`offset, buffer
      ensures buffer == old(buffer) || fresh(buffer)
      ensures noalloc ==> buffer == old(buffer)
      ensures Capacity() == old(Capacity())
      ensures ok <==> old(offset) + |JsonString.Quoted(key)| + 2 <= Capacity()
      ensures ok ==> Valid() && buffer[..offset] == old(buffer[..offset]) + JsonString.Quoted(key)
      ensures overread == old(overread) && (ok ==> length > 0)
    {
      hide JsonString.Quoted;
      ghost var before := buffer[..offset];
      ok := PrintString(key);
      if !ok { return; }
      QuotedIsVisible(key);
      UpdateOffset(before + JsonString.Quoted(key));
    }

    /** One turn of print_object's loop. */
    method PrintMember(members: seq<Member>, i: nat) returns (ok: bool)
      requires Valid() && length > 0 && depth <= NESTING_LIMIT && i < |members|
      requires NulFree(members[i].key) && Printable(members[i].item)
      modifies this, buffer
      ensures buffer == old(buffer) || fresh(buffer)
      ensures noalloc ==> buffer == old(buffer)
      ensures Capacity() == old(Capacity())
      ensures ok <==> old(depth) + Nesting(members[i].item) <= NESTING_LIMIT &&
                      old(offset) + |MemberText(members, i, old(depth), format)| + 2 <= Capacity()
      ensures ok ==> Valid() && depth == old(depth) &&
                     buffer[..offset] == old(buffer[..offset]) + MemberText(members, i, old(depth), format)
      ensures overread == old(overread) && (ok ==> length > 0)
      decreases members, 0, |members| - i
    {
      hide Text, Nesting, Terminated, Lead, Printable;
      ghost var before := buffer[..offset];
      ghost var lead := Lead(members[i].key, depth, format);
      ghost var text := Text(members[i].item, depth, format);
      ok := PrintLead(members[i].key);
      if !ok { return; }
      ok := PrintItem(members[i].item);
      if !ok { return; }
      var trail := Trail(i + 1 == |members|, format);
      ok := Append(|trail| + 1, trail, true);
      if !ok { return; }
      assert before + lead + text + trail == before + (lead + (text + trail));
    }

    /** The end of print_object. */
    method CloseBrace() returns (ok: bool)
      requires Valid() && length > 0 && depth >= 1
      modifies this, buffer
      ensures buffer == old(buffer) || fresh(buffer)
      ensures noalloc ==> buffer == old(buffer)
      ensures Capacity() == old(Capacity())
      ensures ok <==> old(offset) + |CloseObject(old(depth) - 1, format)| + 2 <= Capacity()
      ensures ok ==> Valid() && depth == old(depth) - 1 && offset == old(offset)
      ensures ok ==> Terminated(old(buffer[..offset]) + CloseObject(old(depth) - 1, format))
      ensures overread == old(overread) && (ok ==> length > 0)
    {
      ok := Ensure(if format then depth + 1 else 2);
      if !ok { return; }
      PutText((if format then Tabs(depth - 1) else []) + [CLOSE_BRACE]);
      depth := depth - 1;
    }

    lemma FinishString(before: bytes, s: bytes)
      requires |before| == offset && |before| + |JsonString.Quoted(s)| < length <= buffer.Length
      requires buffer[..offset + |JsonString.Quoted(s)| + 1] == before + [QUOTE] + JsonString.Escape(s) + [QUOTE, NUL]
      ensures Terminated(before + JsonString.Quoted(s))
    {
      var e := offset + |JsonString.Quoted(s)|;
      assert before + [QUOTE] + JsonString.Escape(s) + [QUOTE, NUL] == before + JsonString.Quoted(s) + [NUL];
      assert buffer[e] == buffer[..e + 1][e];
      assert buffer[..e] == buffer[..e + 1][..e];
    }
  }

  /** A child and its separator. */
  function ElementText(items: seq<Json>, i: nat, depth: nat, format: bool): bytes
    requires i < |items|
  {
    Text(items[i], depth, format) + (if i + 1 < |items| then Separator(format) else [])
  }

  lemma ArrayParts(items: seq<Json>, depth: nat, format: bool)
    ensures Text(Array(items), depth, format) == [OPEN_BRACKET] + (ItemsText(items, 0, depth + 1, format) + [CLOSE_BRACKET])
    ensures Nesting(Array(items)) == 1 + ItemsNesting(items, 0)
  {
    hide ItemsText, ItemsNesting;
    var body := ItemsText(items, 0, depth + 1, format);
    assert [OPEN_BRACKET] + body + [CLOSE_BRACKET] == [OPEN_BRACKET] + (body + [CLOSE_BRACKET]);
  }

  lemma NextItem(items: seq<Json>, i: nat, depth: nat, format: bool, done: bytes)
    requires i < |items|
    ensures done + (ItemsText(items, i, depth, format) + [CLOSE_BRACKET]) ==
            (done + ElementText(items, i, depth, format)) + (ItemsText(items, i + 1, depth, format) + [CLOSE_BRACKET])
    ensures ItemsNesting(items, i) == Max(Nesting(items[i]), ItemsNesting(items, i + 1))
  {
    hide Text, Nesting;
    var next, more := ElementText(items, i, depth, format), ItemsText(items, i + 1, depth, format);
    assert ItemsText(items, i, depth, format) == next + more;
    Regroup(done, next, more, [CLOSE_BRACKET]);
  }

  lemma NoMoreItems(items: seq<Json>, depth: nat, format: bool)
    ensures ItemsText(items, |items|, depth, format) == [] && ItemsNesting(items, |items|) == 0
  {}

  /** A member of an object as one turn of the loop writes it. */
  function MemberText(ms: seq<Member>, i: nat, depth: nat, format: bool): bytes
    requires i < |ms|
  {
    Lead(ms[i].key, depth, format) + (Text(ms[i].item, depth, format) + Trail(i + 1 == |ms|, format))
  }

  lemma ObjectParts(ms: seq<Member>, depth: nat, format: bool)
    ensures Text(Object(ms), depth, format) == OpenObject(format) + (MembersText(ms, 0, depth + 1, format) + CloseObject(depth, format))
    ensures Nesting(Object(ms)) == 1 + MembersNesting(ms, 0)
  {
    hide MembersText, MembersNesting, CloseObject;
    var open, body, close := OpenObject(format), MembersText(ms, 0, depth + 1, format), CloseObject(depth, format);
    assert open + body + close == open + (body + close);
  }

  lemma NextMember(ms: seq<Member>, i: nat, depth: nat, format: bool, done: bytes, close: bytes)
    requires i < |ms|
    ensures done + (MembersText(ms, i, depth, format) + close) ==
            (done + MemberText(ms, i, depth, format)) + (MembersText(ms, i + 1, depth, format) + close)
    ensures MembersNesting(ms, i) == Max(Nesting(ms[i].item), MembersNesting(ms, i + 1))
  {
    hide Text, Nesting, Lead, Trail;
    var lead, text, trail := Lead(ms[i].key, depth, format), Text(ms[i].item, depth, format), Trail(i + 1 == |ms|, format);
    var more := MembersText(ms, i + 1, depth, format);
    hide *;
    assert lead + (text + (trail + more)) == (lead + (text + trail)) + more;
    Regroup(done, lead + (text + trail), more, close);
  }

  lemma Regroup(done: bytes, next: bytes, more: bytes, close: bytes)
    ensures done + ((next + more) + close) == (done + next) + (more + close)
  {}

  lemma NoMoreMembers(ms: seq<Member>, depth: nat, format: bool, close: bytes)
    ensures MembersText(ms, |ms|, depth, format) + close == close && MembersNesting(ms, |ms|) == 0
  {}

  lemma QuotedLength(s: bytes)
    ensures |JsonString.Quoted(s)| == |s| + JsonString.CountExtra(s) + 2 == |JsonString.Escape(s)| + 2
  {
    JsonString.CountPredictsLength(s);
  }

  lemma {:induction false} EscapePrefixFits(s: bytes, i: nat)
    requires i < |s|
    ensures |JsonString.Escape(s[..i])| + |JsonString.EscapeByte(s[i])| <= |JsonString.Escape(s)|
    decreases |s|
  {
    JsonString.EscapeSnoc(s[..i], s[i]);
    assert s[..i + 1] == s[..i] + [s[i]];
    EscapeMonotone(s, i + 1);
  }

  lemma {:induction false} EscapeMonotone(s: bytes, i: nat)
    requires i <= |s|
    ensures |JsonString.Escape(s[..i])| <= |JsonString.Escape(s)|
    decreases |s| - i
  {
    if i < |s| {
      EscapeMonotone(s, i + 1);
      JsonString.EscapeSnoc(s[..i], s[i]);
      assert s[..i + 1] == s[..i] + [s[i]];
    } else {
      assert s[..i] == s;
    }
  }

  lemma {:induction false} DecTextLength(n: nat, k: nat, bound: nat)
    requires n < bound && k >= 1
    requires bound == Pow10(k)
    ensures |DecText(n)| <= k
    decreases k
  {
    if n >= 10 {
      assert k >= 2 by { assert Pow10(1) == 10 * Pow10(0); }
      DecTextLength(n / 10, k - 1, Pow10(k - 1));
    }
  }

  function Pow10(k: nat): nat { if k == 0 then 1 else 10 * Pow10(k - 1) }

  lemma IntTextLength(n: int)
    requires IsCInt(n)
    ensures |IntText(n)| <= 11
  {
    assert Pow10(10) == 10_000_000_000 by {
      assert Pow10(2) == 100;
      assert Pow10(4) == 10_000;
      assert Pow10(6) == 1_000_000;
      assert Pow10(8) == 100_000_000;
    }
    DecTextLength(if n < 0 then -n else n, 10, Pow10(10));
  }

  /** print (cJSON_Print and cJSON_PrintUnformatted): start with 256 bytes, grow, and return an
      allocation of exactly the text and its terminator. */
  method PrintTree(t: Json, format: bool, reallocate: bool) returns (printed: Option<array<byte>>, ghost overread: bool)
    requires Printable(t)
    ensures printed.Some? <==> Nesting(t) <= NESTING_LIMIT && |Print(t, format)| + 2 <= INT_MAX
    ensures printed.Some? ==> fresh(printed.value) && printed.value[..] == Print(t, format) + [NUL]
    ensures !overread
  {
    hide Text, Nesting, Printable;
    var text := new byte[256];
    var p := new PrintBuffer(text, 256, false, format, reallocate);
    assert p.buffer[..p.offset] == [];
    var ok := p.PrintItem(t);
    overread := p.overread;
    if !ok { return None, overread; }
    assert [] + Print(t, format) == Print(t, format);
    var result := Trim(p.buffer, p.offset);
    return Some(result), overread;
  }

  /** The copy `print` returns: the text and its terminator, nothing more. */
  method Trim(buffer: array<byte>, n: nat) returns (result: array<byte>)
    requires n <= buffer.Length
    ensures fresh(result) && result[..] == buffer[..n] + [NUL]
  {
    result := new byte[n + 1];
    forall i | 0 <= i < n { result[i] := buffer[i]; }
    result[n] := NUL;
    assert result[..n] == buffer[..n];
    assert result[..] == result[..n] + [NUL];
  }

  /** cJSON_PrintBuffered: the caller guesses the size, and a wrong guess changes nothing in the
      text. But without realloc a guess of zero makes the first growth read past the allocation,
      and no other guess does. */
  method PrintBuffered(t: Json, prebuffer: int, format: bool, reallocate: bool)
    returns (printed: Option<array<byte>>, ghost overread: bool)
    requires Printable(t) && prebuffer <= INT_MAX
    ensures printed.Some? <==> prebuffer >= 0 && Nesting(t) <= NESTING_LIMIT && |Print(t, format)| + 2 <= INT_MAX
    ensures printed.Some? ==> |Print(t, format)| < printed.value.Length &&
                              printed.value[..|Print(t, format)|] == Print(t, format) &&
                              printed.value[|Print(t, format)|] == NUL
    ensures overread <==> prebuffer == 0 && !reallocate && Starts(t, 0)
  {
    hide Text, Nesting, Printable, Starts;
    if prebuffer < 0 { return None, false; }
    var text := new byte[prebuffer];
    var p := new PrintBuffer(text, prebuffer, false, format, reallocate);
    assert p.buffer[..p.offset] == [];
    var ok := p.PrintValue(t);
    overread := p.overread;
    if !ok { return None, overread; }
    assert [] + Print(t, format) == Print(t, format);
    return Some(p.buffer), overread;
  }

  /** An instance: printing null with a size guess of zero. */
  method PrintNullIntoNothing() returns (printed: Option<array<byte>>, ghost overread: bool)
    ensures overread && printed.Some?
  {
    printed, overread := PrintBuffered(Json.Null, 0, false, false);
  }

  /** cJSON_PrintPreallocated: it succeeds exactly when the length is at least two bytes more than
      the text's (one for the terminator, one that `ensure` always keeps to spare), and then the
      buffer, which may be longer, holds the same text unbounded printing gives. */
  method PrintPreallocated(t: Json, buffer: array<byte>, length: int, format: bool, reallocate: bool)
    returns (ok: bool, ghost overread: bool)
    requires Printable(t) && length <= INT_MAX && length <= buffer.Length
    modifies buffer
    ensures ok <==> Nesting(t) <= NESTING_LIMIT && |Print(t, format)| + 2 <= length
    ensures ok ==> buffer[..|Print(t, format)|] == Print(t, format) && buffer[|Print(t, format)|] == NUL
    ensures !overread
  {
    hide Text, Nesting, Printable;
    if length < 0 { return false, false; }
    var p := new PrintBuffer(buffer, length, true, format, reallocate);
    assert p.buffer[..p.offset] == [];
    ok := p.PrintValue(t);
    overread := p.overread;
    assert [] + Print(t, format) == Print(t, format);
  }
}
