/** Whole formats of `uvsnprintf`: plain text and any number of conversions in one buffer. */
module Formats {
  import opened Numbers
  import opened Ustdlib

  /** The arguments by number: each can be read as a number or as a string. */
  datatype Args = Args(number: nat -> U32, text: nat -> string)

  // ---- the text of a format -----------------------------------------------------------------

  /** Digits may stand between the percent sign and the command. */
  function CommandAt(format: string): (e: nat)
    requires format != []
    ensures 1 <= e <= |format|
  {
    RunEnd(format, 1, 10)
  }

  lemma SpecIsDigits(format: string)
    requires format != []
    ensures AllDigits(format[1..CommandAt(format)])
  {
  }

  /** No percent sign is left without a command. */
  predicate Closed(format: string)
    decreases format
  {
    format == [] ||
    if format[0] != '%' then Closed(format[1..])
    else var e := CommandAt(format); e < |format| && Closed(format[e + 1..])
  }

  predicate IsNumber(command: char) {
    command in "duxXp"
  }

  function KindOf(command: char): Kind {
    if command == 'd' then Signed else if command == 'u' then Unsigned else Hexadecimal
  }

  /** How many arguments a command takes. */
  function Takes(command: char): nat {
    if IsNumber(command) || command == 'c' || command == 's' then 1 else 0
  }

  function Spaces(spec: string, s: string): string {
    Repeat(' ', if Width(spec) > |s| then Width(spec) - |s| else 0)
  }

  /** The text of one command. */
  ghost function TextOf(command: char, spec: string, args: Args, j: nat): string {
    if IsNumber(command) then
      Printed(KindOf(command), spec, args.number(j), TopOf(KindOf(command), args.number(j)))
    else if command == 'c' then [(args.number(j) % 256) as char]
    else if command == 's' then args.text(j) + Spaces(spec, args.text(j))
    else if command == '%' then "%"
    else "ERROR"
  }

  /** The text of a format whose first argument is number `j`. */
  ghost function Full(format: string, j: nat, args: Args): string
    requires Closed(format)
    decreases format
  {
    if format == [] then ""
    else if format[0] != '%' then [format[0]] + Full(format[1..], j, args)
    else
      var e := CommandAt(format);
      TextOf(format[e], format[1..e], args, j) + Full(format[e + 1..], j + Takes(format[e]), args)
  }

  function Less(room: nat, n: nat): nat {
    if room > n then room - n else 0
  }

  /** The sign this command drops. */
  ghost function SignDropped(command: char, spec: string, args: Args, j: nat, room: nat): nat {
    var kind, x := KindOf(command), args.number(j);
    if IsNumber(command) && SignLost(kind, spec, x, TopOf(kind, x), room) then 1 else 0
  }

  /** How many minus signs meet a full buffer. */
  ghost function SignsDropped(format: string, j: nat, args: Args, room: nat): nat
    requires Closed(format)
    decreases format
  {
    if format == [] then 0
    else if format[0] != '%' then SignsDropped(format[1..], j, args, Less(room, 1))
    else
      var e := CommandAt(format);
      SignDropped(format[e], format[1..e], args, j, room)
        + SignsDropped(format[e + 1..], j + Takes(format[e]), args,
                       Less(room, |TextOf(format[e], format[1..e], args, j)|))
  }

  // ---- padded strings -----------------------------------------------------------------------

  /** The spaces stored behind a string of `len` characters in a field of `count`. */
  function Padded(room: U32, count: U32, len: nat): nat {
    if count > len && room > len then Min(count - len, room - len) else 0
  }

  /** The room the code counts after a string: the padding is negated instead of taken off. */
  function RoomAfterString(room: U32, count: U32, len: nat): U32 {
    if len > room then 0
    else if count > len then (0 - Padded(room, count, len)) % WORD
    else room - len
  }

  /** A string leaves the room its text leaves exactly if it is not padded or fills the buffer. */
  lemma StringKeepsRoom(room: U32, count: U32, len: nat)
    ensures RoomAfterString(room, count, len) == Less(room, if count > len then count else len)
      <==> count <= len || room <= len
  {
  }

  /** Three characters in a field of five, with room for nine: room for more than four thousand million is counted. */
  lemma PaddedStringMakesRoom()
    ensures RoomAfterString(9, 5, 3) == 0xFFFF_FFFE
  {
  }

  predicate StringFits(spec: string, s: string, room: nat) {
    Width(spec) <= |s| || room <= |s|
  }

  /** A string is padded while there is room. */
  predicate LosesRoom(command: char, spec: string, args: Args, j: nat, room: nat) {
    command == 's' && !StringFits(spec, args.text(j), room)
  }

  /** The room the code counts after a command. */
  ghost function RoomAfter(command: char, spec: string, args: Args, j: nat, room: U32): U32 {
    if command == 's' then RoomAfterString(room, Width(spec), |args.text(j)|)
    else Less(room, |TextOf(command, spec, args, j)|)
  }

  lemma RoomAfterStringIs(room: U32, count: U32, len: nat)
    ensures var n := if count > len then count else len;
      if count > len && room > len
      then var stored := Min(n, room); 0 < stored && RoomAfterString(room, count, len) >= WORD - stored
      else RoomAfterString(room, count, len) == Less(room, n)
  {
    var pad := Padded(room, count, len);
    if pad > 0 {
      Negated32(pad);
    }
  }

  lemma Negated32(n: U32)
    requires n > 0
    ensures (0 - n) % WORD == WORD - n
  {
  }

  lemma RoomAfterIs(command: char, spec: string, args: Args, j: nat, room: U32)
    ensures var n := |TextOf(command, spec, args, j)|;
      if LosesRoom(command, spec, args, j, room)
      then var stored := Min(n, room); 0 < stored && RoomAfter(command, spec, args, j, room) >= WORD - stored
      else RoomAfter(command, spec, args, j, room) == Less(room, n)
  {
    hide Width, RoomAfterString, Printed;
    if command == 's' {
      RoomAfterStringIs(room, Width(spec), |args.text(j)|);
    }
  }

  /** Once a string was padded while there was room, either nothing more is put or the whole text fits. */
  ghost predicate Bounded(format: string, j: nat, args: Args, room: nat)
    requires Closed(format)
    decreases format
  {
    format == [] ||
    if format[0] != '%' then Bounded(format[1..], j, args, Less(room, 1))
    else
      var e := CommandAt(format);
      var rest, next := format[e + 1..], j + Takes(format[e]);
      var n := |TextOf(format[e], format[1..e], args, j)|;
      if LosesRoom(format[e], format[1..e], args, j, room)
      then Full(rest, next, args) == "" || n + |Full(rest, next, args)| <= room
      else Bounded(rest, next, args, Less(room, n))
  }

  /** The characters the code stores, by the room it counts. */
  ghost function StoredBy(format: string, j: nat, args: Args, room: U32): nat
    requires Closed(format)
    decreases format
  {
    if format == [] then 0
    else if format[0] != '%' then Min(1, room) + StoredBy(format[1..], j, args, Less(room, 1))
    else
      var e := CommandAt(format);
      Min(|TextOf(format[e], format[1..e], args, j)|, room)
        + StoredBy(format[e + 1..], j + Takes(format[e]), args, RoomAfter(format[e], format[1..e], args, j, room))
  }

  /** What is stored is at least what there is room for, and all of it if there is room for all. */
  lemma {:induction false} StoredAtLeast(format: string, j: nat, args: Args, room: U32)
    requires Closed(format)
    ensures StoredBy(format, j, args, room) >= Min(|Full(format, j, args)|, room)
    ensures |Full(format, j, args)| <= room ==> StoredBy(format, j, args, room) == |Full(format, j, args)|
    decreases format
  {
    hide TextOf, RoomAfter, LosesRoom, CommandAt;
    if format != [] {
      if format[0] != '%' {
        StoredAtLeast(format[1..], j, args, Less(room, 1));
      } else {
        var e := CommandAt(format);
        RoomAfterIs(format[e], format[1..e], args, j, room);
        StoredAtLeast(format[e + 1..], j + Takes(format[e]), args, RoomAfter(format[e], format[1..e], args, j, room));
      }
    }
  }

  /** The code stays within the room it was given exactly if the format is bounded. */
  lemma {:induction false} BoundedIff(format: string, j: nat, args: Args, room: U32)
    requires Closed(format)
    ensures StoredBy(format, j, args, room) <= room <==> Bounded(format, j, args, room)
    decreases format
  {
    hide TextOf, RoomAfter, LosesRoom, CommandAt;
    if format != [] {
      if format[0] != '%' {
        BoundedIff(format[1..], j, args, Less(room, 1));
      } else {
        var e := CommandAt(format);
        var rest, next := format[e + 1..], j + Takes(format[e]);
        var after := RoomAfter(format[e], format[1..e], args, j, room);
        RoomAfterIs(format[e], format[1..e], args, j, room);
        if LosesRoom(format[e], format[1..e], args, j, room) {
          StoredAtLeast(rest, next, args, after);
        } else {
          BoundedIff(rest, next, args, after);
        }
      }
    }
  }

  // ---- the printer --------------------------------------------------------------------------

  /** What is put so far agrees with the text so far as far as the buffer goes. */
  predicate Agrees(put: string, text: string, limit: nat) {
    var n := Min(|text|, limit);
    Min(|put|, limit) == n && put[..n] == text[..n]
  }

  lemma AgreesAdds(put: string, text: string, more: string, full: string, limit: nat)
    requires Agrees(put, text, limit) && Agrees(more, full, Less(limit, |put|))
    ensures Agrees(put + more, text + full, limit)
    ensures Less(limit, |put + more|) == Less(Less(limit, |put|), |full|)
  {
    if |put| < limit {
      assert put == put[..|put|] == text[..|text|] == text;
      var n := Min(|full|, limit - |put|);
      assert (put + more)[..|put| + n] == put + more[..n] && (text + full)[..|put| + n] == text + full[..n];
    } else {
      assert (put + more)[..limit] == put[..limit] && (text + full)[..limit] == text[..limit];
    }
  }

  lemma AgreesItself(s: string, limit: nat)
    ensures Agrees(s, s, limit)
  {
  }

  /** With room for all of the text, what is put is the text. */
  lemma AgreesWhole(put: string, text: string, limit: nat)
    requires Agrees(put, text, limit) && (|put| < limit || (|text| <= limit && |put| <= |text|))
    ensures put == text
  {
    assert put[..|put|] == put && text[..|text|] == text;
  }

  method PutAll(out: Output, s: string)
    requires out.Valid() && out.Fits(|s|)
    modifies out, out.buf
    ensures out.Valid() && out.produced == old(out.produced) + s && out.counted == old(out.counted) + |s|
    ensures out.pos + out.room == old(out.pos + out.room) && out.room == Less(old(out.room), |s|)
  {
    hide Output.Valid;
    for i := 0 to |s|
      invariant out.Valid() && out.produced == old(out.produced) + s[..i] && out.counted == old(out.counted) + i
      invariant out.pos + out.room == old(out.pos + out.room) && out.room == Less(old(out.room), i)
      invariant out.Fits(|s| - i)
    {
      out.Put(s[i]);
    }
    assert s[..|s|] == s;
  }

  /** The spaces behind a string, stored without a look at the room. */
  method PutSpaces(out: Output, n: nat)
    requires out.Valid() && out.pos + n <= out.limit && (n > 0 ==> |out.produced| == out.pos)
    modifies out, out.buf
    ensures out.Valid() && out.produced == old(out.produced) + Repeat(' ', n)
    ensures out.counted == old(out.counted) && out.room == old(out.room)
  {
    for i := 0 to n
      invariant out.Valid() && out.pos == old(out.pos) + i && (i < n ==> |out.produced| == out.pos)
      invariant out.produced == old(out.produced) + Repeat(' ', i)
      invariant out.counted == old(out.counted) && out.room == old(out.room)
    {
      out.buf[out.pos] := ' ';
      out.pos := out.pos + 1;
      out.produced := out.produced + [' '];
    }
  }

  /** As many spaces as there is room for agree with all of them. */
  lemma SpacesAgree(s: string, n: nat, room: nat)
    requires |s| <= room
    ensures Agrees(s + Repeat(' ', Min(n, room - |s|)), s + Repeat(' ', n), room)
  {
  }

  lemma NoRoomAgrees(s: string, n: nat, room: nat)
    requires room <= |s| || n == 0
    ensures Agrees(s, s + Repeat(' ', n), room)
  {
    if n == 0 {
      assert s + Repeat(' ', n) == s;
    }
  }

  /** %s: the spaces are counted whether or not they fit. */
  method PutString(out: Output, spec: string, s: string) returns (ghost put: string)
    requires out.Valid() && AllDigits(spec) && out.Fits(|s + Spaces(spec, s)|)
    modifies out, out.buf
    ensures out.Valid() && out.produced == old(out.produced) + put
    ensures Agrees(put, s + Spaces(spec, s), old(out.room)) && |put| <= |s + Spaces(spec, s)|
    ensures out.counted == old(out.counted) + |s + Spaces(spec, s)|
    ensures out.room == RoomAfterString(old(out.room), Width(spec), |s|)
  {
    hide Width, Fill, Agrees;
    var room := out.room;
    var count, _ := Output.ReadSpec(spec);
    PutAll(out, s);
    put := s;
    if count <= |s| || room < |s| {
      NoRoomAgrees(s, |Spaces(spec, s)|, room);
    }
    if count > |s| {
      out.counted := out.counted + (count - |s|);
      if |s| <= room {
        SpacesAgree(s, count - |s|, room);
        var spaces := Min(count - |s|, out.room);
        PutSpaces(out, spaces);
        out.room := (0 - spaces) % WORD;
        put := s + Repeat(' ', spaces);
      }
    }
  }

  lemma NumberPut(kind: Kind, command: char, spec: string, args: Args, j: nat, room: nat)
    requires IsNumber(command) && kind == KindOf(command)
    ensures var put := Written(kind, spec, args.number(j), TopOf(kind, args.number(j)), room);
      var text := TextOf(command, spec, args, j);
      Agrees(put, text, room) && |put| == |text| - SignDropped(command, spec, args, j, room)
  {
    hide Written, Printed, SignLost, Top;
    WrittenFits(kind, spec, args.number(j), TopOf(kind, args.number(j)), room);
  }

  lemma NumberIsText(command: char, spec: string, args: Args, j: nat)
    requires IsNumber(command)
    ensures TextOf(command, spec, args, j)
      == Printed(KindOf(command), spec, args.number(j), TopOf(KindOf(command), args.number(j)))
  {
    hide Printed;
  }

  /** The room counted after `n` characters were due and `m` of them put. */
  lemma RoomLeft(pos: nat, len: nat, room: nat, limit: nat, n: nat, m: nat, pos': nat, room': nat)
    requires pos == Min(len, limit) && pos' == Min(len + m, limit) && pos + room == pos' + room'
    requires pos + Min(n, room) == Min(pos + n, limit) && n > 0
    requires m == n || (m + 1 == n && room <= m)
    ensures room' == Less(room, n)
  {
  }

  /** One command behind its digits. */
  method PutCommand(out: Output, command: char, spec: string, args: Args, j: nat) returns (ghost put: string)
    requires out.Valid() && AllDigits(spec) && out.Fits(|TextOf(command, spec, args, j)|)
    modifies out, out.buf
    ensures out.Valid() && out.produced == old(out.produced) + put
    ensures var text := TextOf(command, spec, args, j);
      && Agrees(put, text, old(out.room)) && |put| <= |text|
      && out.counted == old(out.counted) + |text| - SignDropped(command, spec, args, j, old(out.room))
    ensures out.room == RoomAfter(command, spec, args, j, old(out.room))
  {
    hide Written, Printed, Magnitude, RoomAfterString, Width, Top;
    ghost var room := out.room;
    if IsNumber(command) {
      put := PutNumber(out, command, spec, args, j);
    } else if command == 'c' {
      out.Put((args.number(j) % 256) as char);
      put := [(args.number(j) % 256) as char];
      AgreesItself(put, room);
    } else if command == 's' {
      put := PutString(out, spec, args.text(j));
    } else if command == '%' {
      out.Put('%');
      put := "%";
    } else {
      PutAll(out, "ERROR");
      put := "ERROR";
    }
  }

  method PutNumber(out: Output, command: char, spec: string, args: Args, j: nat) returns (ghost put: string)
    requires out.Valid() && AllDigits(spec) && out.Fits(|TextOf(command, spec, args, j)|) && IsNumber(command)
    modifies out, out.buf
    ensures out.Valid() && out.produced == old(out.produced) + put
    ensures var text := TextOf(command, spec, args, j);
      && Agrees(put, text, old(out.room)) && |put| == |text| - SignDropped(command, spec, args, j, old(out.room))
      && out.counted == old(out.counted) + |put| && out.room == Less(old(out.room), |text|)
  {
    hide Written, Printed, SignLost, Top, TextOf;
    ghost var kind, x, text := KindOf(command), args.number(j), TextOf(command, spec, args, j);
    ghost var pos, len, room := out.pos, |out.produced|, out.room;
    NumberIsText(command, spec, args, j);
    PrintedLength(kind, spec, x, TopOf(kind, x));
    NumberPut(kind, command, spec, args, j, room);
    ghost var k := out.Convert(KindOf(command), spec, args.number(j));
    put := Written(kind, spec, x, k, room);
    RoomLeft(pos, len, room, out.limit, |text|, |put|, out.pos, out.room);
  }

  // ---- where the printer stands -------------------------------------------------------------

  /** Text for which there is room drops no sign. */
  lemma {:induction false} FitsDropsNone(format: string, j: nat, args: Args, room: nat)
    requires Closed(format) && |Full(format, j, args)| <= room
    ensures SignsDropped(format, j, args, room) == 0
    decreases format
  {
    hide TextOf, SignDropped, CommandAt;
    if format != [] {
      if format[0] != '%' {
        FitsDropsNone(format[1..], j, args, Less(room, 1));
      } else {
        var e := CommandAt(format);
        OneDropsNone(format[e], format[1..e], args, j, room);
        FitsDropsNone(format[e + 1..], j + Takes(format[e]), args,
                      Less(room, |TextOf(format[e], format[1..e], args, j)|));
      }
    }
  }

  lemma OneDropsNone(command: char, spec: string, args: Args, j: nat, room: nat)
    requires |TextOf(command, spec, args, j)| <= room
    ensures SignDropped(command, spec, args, j, room) == 0
  {
    hide Top, Width, Fill, Digits;
    if IsNumber(command) {
      var kind, x := KindOf(command), args.number(j);
      PrintedLength(kind, spec, x, TopOf(kind, x));
    }
  }

  /** How far the room counted can be relied on: it is the room left; or it is more, and everything still fits; or
      nothing more is put. */
  ghost predicate Roomy(rest: string, j: nat, args: Args, text: string, put: string, limit: U32, room: U32)
    requires Closed(rest)
  {
    var n := |Full(rest, j, args)|;
    || (room == Less(limit, |put|) && Bounded(rest, j, args, room))
    || (put == text && |put| + n <= limit && n <= room)
    || n == 0
  }

  /** `text` is the text so far, `put` what was put of it, `rest` the format still to go. */
  ghost predicate Stands(rest: string, j: nat, args: Args, text: string, put: string, counted: nat, limit: U32,
                         room: U32, whole: string, dropped: nat)
  {
    && Agrees(put, text, limit) && Closed(rest) && Roomy(rest, j, args, text, put, limit, room)
    && text + Full(rest, j, args) == whole
    && counted + |Full(rest, j, args)| - SignsDropped(rest, j, args, room) == |whole| - dropped
  }

  lemma StandsFirst(format: string, args: Args, limit: U32)
    requires Closed(format) && Bounded(format, 0, args, limit)
    ensures Stands(format, 0, args, "", "", 0, limit, limit, Full(format, 0, args),
                   SignsDropped(format, 0, args, limit))
  {
  }

  lemma StandsPlain(rest: string, j: nat, args: Args, text: string, put: string, counted: nat, limit: U32, room: U32,
                    whole: string, dropped: nat)
    requires Stands(rest, j, args, text, put, counted, limit, room, whole, dropped) && rest != [] && rest[0] != '%'
    ensures var c := [rest[0]];
      Stands(rest[1..], j, args, text + c, put + c, counted + 1, limit, Less(room, 1), whole, dropped)
  {
    var c, later := [rest[0]], Full(rest[1..], j, args);
    AgreesItself(c, Less(limit, |put|));
    AgreesAdds(put, text, c, c, limit);
    assert text + (c + later) == text + c + later;
  }

  /** After a command the room can be relied on as before. */
  lemma RoomyCommand(rest: string, j: nat, args: Args, text: string, put: string, limit: U32, room: U32, more: string)
    requires rest != [] && rest[0] == '%' && Closed(rest) && Agrees(put, text, limit)
    requires Roomy(rest, j, args, text, put, limit, room)
    requires var e := CommandAt(rest); var full := TextOf(rest[e], rest[1..e], args, j);
      Agrees(more, full, room) && |more| <= |full|
    ensures var e := CommandAt(rest); var full := TextOf(rest[e], rest[1..e], args, j);
      var after := RoomAfter(rest[e], rest[1..e], args, j, room);
      && Agrees(put + more, text + full, limit)
      && Roomy(rest[e + 1..], j + Takes(rest[e]), args, text + full, put + more, limit, after)
      && (LosesRoom(rest[e], rest[1..e], args, j, room) ==>
            |Full(rest[e + 1..], j + Takes(rest[e]), args)| <= Min(after, Less(room, |full|)))
  {
    hide TextOf, CommandAt, Agrees, RoomAfter, LosesRoom;
    var e := CommandAt(rest);
    var full, later := TextOf(rest[e], rest[1..e], args, j), Full(rest[e + 1..], j + Takes(rest[e]), args);
    RoomAfterIs(rest[e], rest[1..e], args, j, room);
    if room == Less(limit, |put|) && Bounded(rest, j, args, room) {
      AgreesAdds(put, text, more, full, limit);
      if LosesRoom(rest[e], rest[1..e], args, j, room) && |full| + |later| <= room {
        AgreesWhole(put, text, limit);
        AgreesWhole(more, full, room);
      }
    } else if put == text && |put| + |full| + |later| <= limit && |full| + |later| <= room {
      AgreesWhole(more, full, room);
      AgreesItself(put + more, limit);
    } else {
      assert full == "" && more == "" && put + more == put && text + full == text;
    }
  }

  lemma StandsCommand(rest: string, j: nat, args: Args, text: string, put: string, counted: nat, limit: U32, room: U32,
                      whole: string, dropped: nat, more: string)
    requires Stands(rest, j, args, text, put, counted, limit, room, whole, dropped) && rest != [] && rest[0] == '%'
    requires var e := CommandAt(rest); var full := TextOf(rest[e], rest[1..e], args, j);
      Agrees(more, full, room) && |more| <= |full|
    ensures var e := CommandAt(rest); var full := TextOf(rest[e], rest[1..e], args, j);
      Stands(rest[e + 1..], j + Takes(rest[e]), args, text + full, put + more,
             counted + |full| - SignDropped(rest[e], rest[1..e], args, j, room), limit,
             RoomAfter(rest[e], rest[1..e], args, j, room), whole, dropped)
  {
    hide TextOf, SignDropped, CommandAt, Agrees, RoomAfter, LosesRoom, Roomy;
    var e := CommandAt(rest);
    var next := j + Takes(rest[e]);
    var full, later := TextOf(rest[e], rest[1..e], args, j), Full(rest[e + 1..], next, args);
    RoomyCommand(rest, j, args, text, put, limit, room, more);
    RoomAfterIs(rest[e], rest[1..e], args, j, room);
    if LosesRoom(rest[e], rest[1..e], args, j, room) {
      FitsDropsNone(rest[e + 1..], next, args, RoomAfter(rest[e], rest[1..e], args, j, room));
      FitsDropsNone(rest[e + 1..], next, args, Less(room, |full|));
    }
    assert text + (full + later) == text + full + later;
  }

  lemma StandsLast(j: nat, args: Args, text: string, put: string, counted: nat, limit: U32, room: U32,
                   whole: string, dropped: nat)
    requires Stands("", j, args, text, put, counted, limit, room, whole, dropped)
    ensures counted == |whole| - dropped && Agrees(put, whole, limit)
  {
    assert text + "" == text;
  }

  /** The next piece of the format may be put. */
  lemma NextFits(out: Output, rest: string, j: nat, args: Args, text: string, counted: nat, limit: U32,
                 whole: string, dropped: nat)
    requires out.Valid() && out.limit == limit && rest != []
    requires Stands(rest, j, args, text, out.produced, counted, limit, out.room, whole, dropped)
    ensures if rest[0] != '%' then out.Fits(1)
      else var e := CommandAt(rest);
        e < |rest| && AllDigits(rest[1..e]) && out.Fits(|TextOf(rest[e], rest[1..e], args, j)|)
  {
    hide TextOf, Agrees, Bounded, CommandAt;
    SpecIsDigits(rest);
    if rest[0] != '%' {
      PieceFits(out, 1, rest, j, args, text, limit);
    } else {
      var e := CommandAt(rest);
      PieceFits(out, |TextOf(rest[e], rest[1..e], args, j)|, rest, j, args, text, limit);
    }
  }

  lemma PieceFits(out: Output, n: nat, rest: string, j: nat, args: Args, text: string, limit: U32)
    requires out.Valid() && out.limit == limit && Closed(rest) && n <= |Full(rest, j, args)|
    requires Roomy(rest, j, args, text, out.produced, limit, out.room)
    ensures out.Fits(n)
  {
    hide Full, Bounded;
  }

  /** `uvsnprintf` on a format that stays within its room: the buffer gets the text as far as it fits, a terminator, and
      nothing else. The returned count is the length of the whole text less the minus signs that met a full buffer. */
  method Usnprintf(buf: array<char>, size: nat, format: string, args: Args) returns (count: nat)
    requires 0 < buf.Length && size <= buf.Length && size <= WORD
    requires Closed(format) && Bounded(format, 0, args, Limit(size))
    modifies buf
    ensures var text := Full(format, 0, args);
      var n := Min(|text|, Limit(size));
      && n < buf.Length && buf[..] == text[..n] + ['\0'] + old(buf[n + 1..])
      && count == |text| - SignsDropped(format, 0, args, Limit(size))
  {
    hide TextOf, Stands, Output.Valid, Output.Fits, Full, SignsDropped, Bounded, RoomAfter, CommandAt;
    var out := new Output(buf, size);
    ghost var limit: U32, text := Limit(size), "";
    ghost var whole, dropped := Full(format, 0, args), SignsDropped(format, 0, args, limit);
    var rest, j: nat := format, 0;
    StandsFirst(format, args, limit);
    while rest != []
      invariant out.Valid() && out.buf == buf && out.before == old(buf[..]) && out.limit == limit
      invariant Stands(rest, j, args, text, out.produced, out.counted, limit, out.room, whole, dropped)
      decreases |rest|
    {
      NextFits(out, rest, j, args, text, out.counted, limit, whole, dropped);
      ghost var put, counted, room := out.produced, out.counted, out.room;
      if rest[0] != '%' {
        StandsPlain(rest, j, args, text, put, counted, limit, room, whole, dropped);
        out.Put(rest[0]);
        text := text + [rest[0]];
        rest := rest[1..];
      } else {
        var e := CommandAt(rest);
        ghost var more := PutCommand(out, rest[e], rest[1..e], args, j);
        StandsCommand(rest, j, args, text, put, counted, limit, room, whole, dropped, more);
        text := text + TextOf(rest[e], rest[1..e], args, j);
        rest, j := rest[e + 1..], j + Takes(rest[e]);
      }
    }
    StandsLast(j, args, text, out.produced, out.counted, limit, out.room, whole, dropped);
    count := out.counted;
    Terminate(out, whole);
  }

  /** The terminating zero. */
  method Terminate(out: Output, ghost whole: string)
    requires out.Valid() && Agrees(out.produced, whole, out.limit)
    modifies out.buf
    ensures var n := Min(|whole|, out.limit);
      n < out.buf.Length == |out.before| && out.buf[..] == whole[..n] + ['\0'] + out.before[n + 1..]
  {
    ghost var n, buf := out.pos, out.buf[..];
    assert buf[n..][1..] == buf[n + 1..] && out.before[n..][1..] == out.before[n + 1..];
    out.buf[out.pos] := '\0';
    assert out.buf[..] == buf[..n] + ['\0'] + buf[n + 1..];
  }

  lemma OneCommand(command: char, spec: string)
    requires AllDigits(spec) && !('0' <= command <= '9')
    ensures var format := "%" + spec + [command];
      CommandAt(format) == 1 + |spec| && format[1 + |spec|] == command && format[1..1 + |spec|] == spec
      && format[2 + |spec|..] == "" && Closed(format)
  {
    var format := "%" + spec + [command];
    assert forall i :: 0 <= i < |spec| ==> format[1 + i] == spec[i];
    RunEndIs(format, 1, 1 + |spec|);
  }

  lemma {:induction false} RunEndIs(s: string, i: nat, j: nat)
    requires i <= j < |s| && (forall m :: i <= m < j ==> '0' <= s[m] <= '9') && !('0' <= s[j] <= '9')
    ensures RunEnd(s, i, 10) == j
    decreases j - i
  {
    if i < j {
      RunEndIs(s, i + 1, j);
    }
  }

  /** The text of one numeric conversion parses back to its argument, with nothing left over. */
  lemma FormatParses(command: char, spec: string, args: Args)
    requires IsNumber(command) && AllDigits(spec)
    ensures Closed("%" + spec + [command])
    ensures var text, base := Full("%" + spec + [command], 0, args), Base(KindOf(command));
      Parse(text, base) == args.number(0) && Rest(text, base) == |text|
  {
    hide Printed, Parse, Rest, Closed, CommandAt, Top;
    OneCommand(command, spec);
    var format, kind, x := "%" + spec + [command], KindOf(command), args.number(0);
    var text := Printed(kind, spec, x, TopOf(kind, x));
    assert Full(format, 0, args) == text + "" == text;
    PrintedParses(kind, spec, x, TopOf(kind, x));
  }

  // ---- what the commands put ------------------------------------------------------------------

  /** %d prints a signed decimal, %u an unsigned one, %x, %X and %p a hexadecimal number. */
  lemma NumericText(command: char, spec: string, args: Args, j: nat)
    requires command in "duxXp" && AllDigits(spec) && |spec| <= 9 && Decimal(spec) < 65536
    ensures var x := args.number(j);
      var neg := command == 'd' && x >= 0x8000_0000;
      var v: U32 := if neg then 0x1_0000_0000 - x else x;
      TextOf(command, spec, args, j) ==
        Field(Decimal(spec), spec != [] && spec[0] == '0', if neg then "-" else "",
              AllDigitsOf(v, if command in "xXp" then 16 else 10))
  {
    hide Printed, Field, AllDigitsOf, Decimal;
    FieldShape(KindOf(command), spec, args.number(j));
  }

  /** The other commands: a character, a string with spaces behind it, a percent sign, and an error for the rest. */
  lemma OtherTexts(command: char, spec: string, args: Args, j: nat)
    requires AllDigits(spec) && |spec| <= 9 && command !in "duxXp"
    ensures command == 'c' ==> TextOf(command, spec, args, j) == [(args.number(j) % 256) as char]
    ensures command == 's' ==> var s := args.text(j); var text := TextOf(command, spec, args, j);
      && |text| == Max(Decimal(spec), |s|) && text[..|s|] == s
      && forall i :: |s| <= i < |text| ==> text[i] == ' '
    ensures command == '%' ==> TextOf(command, spec, args, j) == "%"
    ensures command !in "cs%" ==> TextOf(command, spec, args, j) == "ERROR"
  {
    hide Width, Decimal, Fill;
    SpecMeans(spec);
  }

  lemma FullOfOne(command: char, spec: string, args: Args)
    requires AllDigits(spec) && !('0' <= command <= '9')
    ensures Closed("%" + spec + [command])
    ensures Full("%" + spec + [command], 0, args) == TextOf(command, spec, args, 0)
  {
    hide TextOf, Closed, CommandAt;
    OneCommand(command, spec);
    assert TextOf(command, spec, args, 0) + "" == TextOf(command, spec, args, 0);
  }

  lemma PlainFirst(c: char, rest: string, j: nat, args: Args)
    requires c != '%' && Closed(rest)
    ensures Closed([c] + rest) && Full([c] + rest, j, args) == [c] + Full(rest, j, args)
  {
    assert ([c] + rest)[1..] == rest;
  }

  /** Forty-two in a hexadecimal field of four with leading zeros. */
  lemma HexExample(args: Args)
    requires args.number(0) == 42
    ensures Closed("0x%04x") && Full("0x%04x", 0, args) == "0x002A"
  {
    hide TextOf, Closed, CommandAt, Top, Full, Field, AllDigitsOf, Decimal;
    var rest := "%" + "04" + ['x'];
    FullOfOne('x', "04", args);
    NumericText('x', "04", args, 0) by { FourDecimal(); }
    FourDecimal();
    FortyTwo();
    FourField();
    PlainFirst('x', rest, 0, args);
    PlainFirst('0', ['x'] + rest, 0, args);
    assert "0x%04x" == ['0'] + (['x'] + rest);
  }

  lemma FourDecimal()
    ensures Decimal("04") == 4
  {
    assert "04"[..1] == "0" && "0"[..0] == "";
  }

  lemma FourField()
    ensures Field(4, true, "", "2A") == "002A"
  {
  }

  lemma FortyTwo()
    ensures AllDigitsOf(42, 16) == "2A" && AllDigitsOf(42, 10) == "42"
  {
    assert Power(16, 1) == 16 && Power(10, 1) == 10;
    TopIsUnique(42, 16, Top(42, 16), 1);
    TopIsUnique(42, 10, Top(42, 10), 1);
  }

  /** Minus forty-two in a field of five: spaces before the sign, zeros behind it. */
  lemma SignedExample()
    ensures Printed(Signed, "5", 0xFFFF_FFD6, TopOf(Signed, 0xFFFF_FFD6)) == "  -42"
    ensures Printed(Signed, "05", 0xFFFF_FFD6, TopOf(Signed, 0xFFFF_FFD6)) == "-0042"
  {
    hide Printed, AllDigitsOf, Top;
    assert Decimal("5") == 5 && Decimal("05") == 5 by { assert "5"[..0] == "" && "05"[..1] == "0" && "0"[..0] == ""; }
    FieldShape(Signed, "5", 0xFFFF_FFD6);
    FieldShape(Signed, "05", 0xFFFF_FFD6);
    FortyTwo();
    assert Field(5, false, "-", "42") == "  -42" && Field(5, true, "-", "42") == "-0042";
  }
}
