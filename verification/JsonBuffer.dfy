/** The printer into one growing buffer: it gives the text that the allocating printer gives. */
module JsonBuffer {
  import opened Common
  import opened JsonText
  import opened JsonParse
  import opened JsonPow2
  import opened JsonPrinter

  /** The most that a length of type `int` lets a buffer grow to, less the most that a step asks for
      beyond what it writes. */
  const LIMIT: nat := 0x4000_0000 - 21

  lemma LimitIsPow2()
    ensures LIMIT + 21 == Pow2(30)
  {
    assert Pow2(5) == 32 && Pow2(10) == 1024;
    assert Pow2(15) == 32 * Pow2(10) && Pow2(20) == 32 * Pow2(15) && Pow2(25) == 32 * Pow2(20) && Pow2(30) == 32 * Pow2(25);
  }

  /** The braces of an empty object, with the terminator. */
  method PutBraces(buffer: array<char>, at: nat, depth: nat, fmt: bool) returns (ptr: nat)
    requires at + (if fmt then depth + 4 else 3) <= buffer.Length
    modifies buffer
    ensures var ws := When(fmt, "\n" + Tabs(depth - 1));
      ptr == at + |ws| + 2 < buffer.Length && buffer[..ptr] == old(buffer[..at]) + ("{" + ws + "}") && buffer[ptr] == NUL
  {
    ghost var done, ws := buffer[..at], When(fmt, "\n" + Tabs(depth - 1));
    ptr := Put(buffer, at, "{");
    if fmt {
      ptr := Put(buffer, ptr, "\n");
      ptr := PutTabs(buffer, ptr, depth - 1);
    }
    assert buffer[..ptr] == done + ("{" + ws);
    ptr := Put(buffer, ptr, "}");
    assert buffer[..ptr] == done + ("{" + ws + "}");
    buffer[ptr] := NUL;
  }

  class PrintBuffer {
    var buffer: array<char>
    var offset: nat

    constructor (prebuffer: nat)
      ensures fresh(buffer) && buffer.Length == prebuffer && offset == 0
    {
      buffer := new char[prebuffer];
      offset := 0;
    }

    /** Everything up to the offset is `done`. */
    ghost predicate Filled(done: string)
      reads this, buffer
    {
      |done| == offset <= buffer.Length && buffer[..offset] == done
    }

    /** What is written is `text`, and a terminator; the offset may lag behind. */
    ghost predicate Ended(text: string)
      reads this, buffer
    {
      offset <= |text| < buffer.Length && buffer[..|text|] == text && buffer[|text|] == NUL
    }

    /** `ensure`: room for `needed` characters from the offset on, and all that was there. */
    method Ensure(needed: nat) returns (ptr: nat)
      requires offset <= buffer.Length && 0 < offset + needed <= LIMIT + 21
      modifies this`buffer
      ensures ptr == offset && offset + needed <= buffer.Length
      ensures buffer == old(buffer) || fresh(buffer)
      ensures buffer[..offset] == old(buffer[..offset])
      ensures buffer != old(buffer) ==> exists k :: buffer.Length == Pow2(k)
    {
      hide Pow2Gt, Pow2, LIMIT;
      var end := needed + offset;
      if end > buffer.Length {
        var newbuffer := Grown(end);
        var n := Copy(newbuffer, 0, buffer, buffer.Length);
        assert newbuffer[..n] == buffer[..n];
        assert newbuffer[..offset] == newbuffer[..n][..offset];
        assert buffer[..offset] == buffer[..n][..offset];
        buffer := newbuffer;
      }
      ptr := offset;
    }

    method Grown(end: nat) returns (newbuffer: array<char>)
      requires 0 < end <= LIMIT + 21
      ensures fresh(newbuffer) && newbuffer.Length >= end && exists k :: newbuffer.Length == Pow2(k)
    {
      hide Pow2Gt;
      LimitIsPow2();
      ghost var k := Pow2GtIsLeast(end);
      newbuffer := new char[Pow2Gt(end)];
    }

    /** `update`: the offset of the terminator. */
    method Update(ghost text: string) returns (end: nat)
      requires Ended(text) && Bytes(text)
      ensures end == |text|
    {
      assert forall i :: 0 <= i < |text| ==> buffer[..|text|][i] in text;
      end := offset;
      while buffer[end] != NUL
        invariant offset <= end <= |text|
        decreases |text| - end
      {
        end := end + 1;
      }
    }

    /** Room for `needed` characters, with a text and its terminator written there. */
    method Emit(needed: nat, s: string, ghost done: string)
      requires Filled(done) && |s| < needed && offset + needed <= LIMIT + 21
      modifies this`buffer, buffer
      ensures Ended(done + s) && (buffer == old(buffer) || fresh(buffer))
    {
      var ptr := Ensure(needed);
      ptr := Put(buffer, ptr, s);
      buffer[ptr] := NUL;
      assert buffer[..ptr] == done + s;
    }

    /** The same, and the offset moved up to the terminator. */
    method EmitAndAdvance(s: string, ghost done: string)
      requires Filled(done) && offset + |s| + 1 <= LIMIT + 21
      modifies this, buffer
      ensures Filled(done + s) && (buffer == old(buffer) || fresh(buffer))
    {
      Emit(|s| + 1, s, done);
      offset := offset + |s|;
    }

    /** Room for a text, written there without a terminator, and the offset moved past it. */
    method Advance(needed: nat, s: string, ghost done: string)
      requires Filled(done) && |s| <= needed && 0 < offset + needed <= LIMIT + 21
      modifies this, buffer
      ensures Filled(done + s) && (buffer == old(buffer) || fresh(buffer))
    {
      var ptr := Ensure(needed);
      ptr := Put(buffer, ptr, s);
      offset := offset + |s|;
    }

    method PrintNumber(x: real, ghost done: string)
      requires Printable(Number(x)) && Filled(done) && offset <= LIMIT
      modifies this`buffer, buffer
      ensures Ended(done + Print(Number(x), 0, false)) && (buffer == old(buffer) || fresh(buffer))
    {
      IntegersFit(x.Floor);
      if x == 0.0 {
        Emit(2, "0", done);
      } else {
        Emit(21, Decimal(x.Floor), done);
      }
    }

    /** `print_string_ptr` */
    method PrintString(s: string, ghost done: string)
      requires Bytes(s) && Filled(done) && offset + |Quote(s)| <= LIMIT
      modifies this`buffer, buffer
      ensures Ended(done + Quote(s)) && (buffer == old(buffer) || fresh(buffer))
    {
      hide Escape;
      var flag := NeedsEscapes(s);
      var len := MeasureString(s, flag);
      var ptr := Ensure(len + 3);
      ptr := PutString(buffer, ptr, s, flag);
    }

    /** `print_value`; what it returns, the place where the text starts, is the offset it starts with. */
    method PrintValue(v: Json, depth: nat, fmt: bool, ghost done: string)
      requires Printable(v) && Filled(done) && Bytes(done) && offset + |Print(v, depth, fmt)| <= LIMIT
      modifies this, buffer
      ensures Ended(done + Print(v, depth, fmt)) && (buffer == old(buffer) || fresh(buffer))
      decreases v, 1
    {
      match v
      case Null => Emit(5, "null", done);
      case False => Emit(6, "false", done);
      case True => Emit(5, "true", done);
      case Number(x) => PrintNumber(x, done);
      case Str(s) => PrintString(s, done);
      case Array(items) => PrintArray(items, depth, fmt, done);
      case Object(members) => PrintObject(members, depth, fmt, done);
    }

    /** A value, and the offset brought up to its end. */
    method PrintAndUpdate(v: Json, depth: nat, fmt: bool, ghost done: string)
      requires Printable(v) && Filled(done) && Bytes(done) && offset + |Print(v, depth, fmt)| <= LIMIT
      modifies this, buffer
      ensures Filled(done + Print(v, depth, fmt)) && (buffer == old(buffer) || fresh(buffer))
      decreases v, 2
    {
      hide Print;
      PrintValue(v, depth, fmt, done);
      offset := Update(done + Print(v, depth, fmt));
    }

    /** `print_array` */
    method PrintArray(items: seq<Json>, depth: nat, fmt: bool, ghost done: string)
      requires Printable(Array(items)) && Filled(done) && Bytes(done) && offset + |Print(Array(items), depth, fmt)| <= LIMIT
      modifies this, buffer
      ensures Ended(done + Print(Array(items), depth, fmt)) && (buffer == old(buffer) || fresh(buffer))
      decreases items, 1
    {
      ghost var text := Elements(items, depth + 1, fmt);
      assert Print(Array(items), depth, fmt) == "[" + text + "]";
      NoElements(depth + 1, fmt);
      hide Print, Elements;
      if items == [] {
        Emit(3, "[]", done);
        return;
      }
      Advance(1, "[", done);
      PrintElements(items, depth + 1, fmt, done + "[");
      Emit(2, "]", done + "[" + text);
      Assoc(done + "[", text, "]");
      Assoc(done, "[", text + "]");
      Assoc("[", text, "]");
    }

    method PrintElements(items: seq<Json>, depth: nat, fmt: bool, ghost done: string)
      requires Printable(Array(items)) && Filled(done) && Bytes(done) && offset + |Elements(items, depth, fmt)| <= LIMIT
      modifies this, buffer
      ensures Filled(done + Elements(items, depth, fmt)) && (buffer == old(buffer) || fresh(buffer))
      decreases items, 0
    {
      hide Print, Elements;
      NoElements(depth, fmt);
      ghost var sofar, whole := done, Elements(items, depth, fmt);
      var i := 0;
      assert items[0..] == items;
      while i < |items|
        invariant 0 <= i <= |items| && Filled(sofar) && Bytes(sofar)
        invariant sofar + Elements(items[i..], depth, fmt) == done + whole
        invariant buffer == old(buffer) || fresh(buffer)
      {
        ghost var text, sep := Print(items[i], depth, fmt), When(i + 1 < |items|, "," + When(fmt, " "));
        ElementsFrom(items, i, depth, fmt);
        Assoc(sofar, text + sep, Elements(items[i + 1..], depth, fmt));
        Assoc(sofar, text, sep);
        PrintAndUpdate(items[i], depth, fmt, sofar);
        sofar := sofar + text;
        if i + 1 < |items| {
          EmitAndAdvance(if fmt then ", " else ",", sofar);
          sofar := sofar + sep;
        }
        i := i + 1;
      }
    }

    method AdvanceTabs(depth: nat, ghost done: string)
      requires depth > 0 && Filled(done) && offset + |Tabs(depth)| <= LIMIT + 21
      modifies this, buffer
      ensures Filled(done + Tabs(depth)) && (buffer == old(buffer) || fresh(buffer))
    {
      var ptr := Ensure(depth);
      ptr := PutTabs(buffer, ptr, depth);
      offset := offset + depth;
    }

    /** The end of an object: as many tabs as it is deep, the bracket and the terminator. */
    method EmitClosing(depth: nat, fmt: bool, ghost done: string)
      requires Filled(done) && offset + |When(fmt, Tabs(depth))| + 2 <= LIMIT + 21
      modifies this`buffer, buffer
      ensures Ended(done + (When(fmt, Tabs(depth)) + "}")) && (buffer == old(buffer) || fresh(buffer))
    {
      hide Tabs;
      var ptr := Ensure(if fmt then depth + 2 else 2);
      ptr := PutClosing(buffer, ptr, depth, fmt);
      buffer[ptr] := NUL;
      Assoc(done, When(fmt, Tabs(depth)), "}");
      assert buffer[..ptr] == done + (When(fmt, Tabs(depth)) + "}");
    }

    /** `print_object` with no members; the depth is still that of the object. */
    method PrintEmptyObject(depth: nat, fmt: bool, ghost done: string)
      requires Filled(done) && offset + |Print(Object([]), depth, fmt)| <= LIMIT
      modifies this`buffer, buffer
      ensures Ended(done + Print(Object([]), depth, fmt)) && (buffer == old(buffer) || fresh(buffer))
    {
      ghost var ws := When(fmt, "\n" + Tabs(depth - 1));
      assert Print(Object([]), depth, fmt) == "{" + ws + "}";
      hide Print;
      var ptr := Ensure(if fmt then depth + 4 else 3);
      ptr := PutBraces(buffer, ptr, depth, fmt);
      assert buffer[..ptr] == done + ("{" + ws + "}");
    }

    method PrintName(s: string, fmt: bool, ghost done: string)
      requires Bytes(s) && Filled(done) && Bytes(done) && offset + |Quote(s)| <= LIMIT
      modifies this, buffer
      ensures Filled(done + Quote(s) + ":" + When(fmt, "\t")) && (buffer == old(buffer) || fresh(buffer))
    {
      hide Quote;
      ghost var sofar := done + Quote(s);
      PrintString(s, done);
      offset := Update(sofar);
      Advance(if fmt then 2 else 1, if fmt then ":\t" else ":", sofar);
      Assoc(sofar, ":", When(fmt, "\t"));
    }

    /** One member, with its label and what comes after it. */
    method PrintMember(members: seq<Member>, i: nat, depth: nat, fmt: bool, ghost done: string)
      requires Printable(Object(members)) && i < |members| && depth > 0
      requires Filled(done) && Bytes(done) && offset + |MemberText(members, i, depth, fmt)| <= LIMIT
      modifies this, buffer
      ensures Filled(done + MemberText(members, i, depth, fmt)) && (buffer == old(buffer) || fresh(buffer))
      decreases members[i], 3
    {
      ghost var tabs, name, tab := When(fmt, Tabs(depth)), Quote(members[i].name), When(fmt, "\t");
      ghost var text, comma, nl := Print(members[i].value, depth, fmt), When(i + 1 < |members|, ","), When(fmt, "\n");
      assert MemberText(members, i, depth, fmt) == tabs + name + ":" + tab + text + comma + nl;
      Regrouped(done, tabs, name, ":", tab, text, comma, nl);
      hide Print, Quote, MemberText, Tabs, Label;
      if fmt {
        AdvanceTabs(depth, done);
      }
      assert Filled(done + tabs);
      PrintName(members[i].name, fmt, done + tabs);
      PrintAndUpdate(members[i].value, depth, fmt, done + tabs + name + ":" + tab);
      ghost var sofar := done + tabs + name + ":" + tab + text;
      var end := (if i + 1 < |members| then "," else "") + (if fmt then "\n" else "");
      EmitAndAdvance(end, sofar);
      Assoc(sofar, comma, nl);
    }

    method PrintMembers(members: seq<Member>, depth: nat, fmt: bool, ghost done: string)
      requires Printable(Object(members)) && depth > 0
      requires Filled(done) && Bytes(done) && offset + |Members(members, depth, fmt)| <= LIMIT
      modifies this, buffer
      ensures Filled(done + Members(members, depth, fmt)) && (buffer == old(buffer) || fresh(buffer))
      decreases members, 0
    {
      hide Print, Members, MemberText;
      NoElements(depth, fmt);
      ghost var sofar, whole := done, Members(members, depth, fmt);
      var i := 0;
      assert members[0..] == members;
      while i < |members|
        invariant 0 <= i <= |members| && Filled(sofar) && Bytes(sofar)
        invariant sofar + Members(members[i..], depth, fmt) == done + whole
        invariant buffer == old(buffer) || fresh(buffer)
      {
        ghost var text := MemberText(members, i, depth, fmt);
        MembersFrom(members, i, depth, fmt);
        MemberBytes(members, i, depth, fmt);
        Assoc(sofar, text, Members(members[i + 1..], depth, fmt));
        PrintMember(members, i, depth, fmt, sofar);
        sofar := sofar + text;
        i := i + 1;
      }
    }

    /** `print_object` */
    method PrintObject(members: seq<Member>, depth: nat, fmt: bool, ghost done: string)
      requires Printable(Object(members)) && Filled(done) && Bytes(done)
      requires offset + |Print(Object(members), depth, fmt)| <= LIMIT
      modifies this, buffer
      ensures Ended(done + Print(Object(members), depth, fmt)) && (buffer == old(buffer) || fresh(buffer))
      decreases members, 1
    {
      if members == [] {
        PrintEmptyObject(depth, fmt, done);
        return;
      }
      ghost var nl, text, tabs := When(fmt, "\n"), Members(members, depth + 1, fmt), When(fmt, Tabs(depth));
      assert Print(Object(members), depth, fmt) == "{" + nl + text + tabs + "}";
      hide Print, Members, Tabs;
      EmitAndAdvance(if fmt then "{\n" else "{", done);
      assert Filled(done + ("{" + nl));
      PrintMembers(members, depth + 1, fmt, done + ("{" + nl));
      EmitClosing(depth, fmt, done + ("{" + nl) + text);
      Assoc(done, "{" + nl, text);
      Assoc(done, "{" + nl + text, tabs + "}");
      Assoc("{" + nl + text, tabs, "}");
    }
  }

  lemma MemberBytes(members: seq<Member>, i: nat, depth: nat, fmt: bool)
    requires Printable(Object(members)) && i < |members|
    ensures Bytes(MemberText(members, i, depth, fmt))
  {
    hide Print, Label;
  }

  /** `cJSON_PrintBuffered`: the same text as the allocating printer, whatever the first size. */
  method PrintBuffered(v: Json, prebuffer: nat, fmt: bool) returns (out: array<char>)
    requires Printable(v) && |Print(v, 0, fmt)| <= LIMIT
    ensures fresh(out) && Holds(out, Print(v, 0, fmt))
  {
    hide Print;
    var p := new PrintBuffer(prebuffer);
    p.PrintValue(v, 0, fmt, "");
    assert "" + Print(v, 0, fmt) == Print(v, 0, fmt);
    out := p.buffer;
  }
}
