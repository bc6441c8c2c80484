/**
 * Frames: what the embedders write, unit by unit, and how the decoders read
 * it back, independent of the carrier. A unit is one byte: one pixel of an
 * image, or eight samples of a WAV file.
 *
 *   text frame: the characters, then a 0 unit;
 *   file frame: the decimal digits of the file length, '#', the file name,
 *               a 0 unit, then the file bytes.
 *
 * A decoder sees the carrier as a tape: the units at successive addresses
 * of the address stream, where reading a unit may raise an exception (an
 * address outside the carrier), and reading past the addresses the stream
 * can supply either raises (an LCG past its orbit, NextN on an empty list,
 * a linear index past the last unit) or never returns (SeedURNG once every
 * value has been drawn).
 */
module Frames {
  import opened Machine

  /** What the address stream does once its addresses are used up. */
  datatype End = Throws | Hangs

  /** How a routine ends: with a value, by raising an exception, or not at all. */
  datatype Outcome<T> = Value(value: T) | Exception | Diverges

  /** The outcome of a read past the end of the stream. */
  function Stop<T>(e: End): (r: Outcome<T>)
    ensures r.Exception? <==> e == Throws
    ensures r.Diverges? <==> e == Hangs
  {
    match e
    case Throws => Exception
    case Hangs => Diverges
  }

  /** The addresses a stream supplies, and what it does after them. */
  datatype Stream<A> = Stream(addrs: seq<A>, end: End)

  /** One unit as a decoder reads it: its byte, or the exception the read raises. */
  datatype Cell = Unit(value: byte) | Fault

  /** The units at successive stream addresses, then the stream's end. */
  datatype Tape = Tape(cells: seq<Cell>, end: End)

  // ---------------------------------------------------------------------
  // Characters and numbers
  // ---------------------------------------------------------------------

  /** The units written for a string: Convert.ToInt32 of each char. */
  function Codes(s: seq<char>): (r: seq<int>)
    ensures |r| == |s| && forall i :: 0 <= i < |s| ==> r[i] == s[i] as int
  {
    seq(|s|, i requires 0 <= i < |s| => s[i] as int)
  }

  /** The string a decoder accumulates from units: Convert.ToChar of each byte. */
  function Chars(bs: seq<byte>): (r: seq<char>)
    ensures |r| == |bs| && forall i :: 0 <= i < |bs| ==> r[i] as int == bs[i]
  {
    seq(|bs|, i requires 0 <= i < |bs| => bs[i] as char)
  }

  /** int.ToString() of a non-negative value: its decimal digits, without leading zeros. */
  function Digits(n: nat): (s: seq<char>)
    ensures |s| >= 1 && forall i :: 0 <= i < |s| ==> '0' <= s[i] <= '9'
    ensures n >= 10 ==> s[0] != '0'
  {
    if n < 10 then [('0' as int + n) as char]
    else Digits(n / 10) + [('0' as int + n % 10) as char]
  }

  /** char.IsNumber on the characters a unit can hold (0-255): the ASCII digits, superscripts 2, 3, 1 and the fractions 1/4, 1/2, 3/4. */
  predicate IsNumber(v: int)
  {
    ('0' as int <= v <= '9' as int) || v == 0xB2 || v == 0xB3 || v == 0xB9 || 0xBC <= v <= 0xBE
  }

  /** The white space int.Parse skips: tab, line feed, vertical tab, form feed, carriage return and space. */
  predicate IsWhite(c: char)
  {
    c == ' ' || '\t' <= c <= '\r'
  }

  /** The value of a string of ASCII digits. */
  function DigitValue(s: seq<char>): (v: nat)
    requires forall i :: 0 <= i < |s| ==> '0' <= s[i] <= '9'
  {
    if |s| == 0 then 0 else 10 * DigitValue(s[..|s| - 1]) + (s[|s| - 1] as int - '0' as int)
  }

  /** The length of the leading run of ASCII digits of s. */
  function DigitRun(s: seq<char>): (n: nat)
    ensures n <= |s| && forall i :: 0 <= i < n ==> '0' <= s[i] <= '9'
    ensures n < |s| ==> !('0' <= s[n] <= '9')
  {
    if |s| == 0 || !('0' <= s[0] <= '9') then 0 else 1 + DigitRun(s[1..])
  }

  /** The length of the leading white space of s. */
  function WhiteRun(s: seq<char>): (n: nat)
    ensures n <= |s| && forall i :: 0 <= i < n ==> IsWhite(s[i])
    ensures n < |s| ==> !IsWhite(s[n])
  {
    if |s| == 0 || !IsWhite(s[0]) then 0 else 1 + WhiteRun(s[1..])
  }

  /** Nothing but NUL characters: what int.Parse accepts after the trailing white space. */
  predicate AllNul(s: seq<char>)
  {
    forall i :: 0 <= i < |s| ==> s[i] == '\0'
  }

  /**
   * The unsigned part of int.Parse: at least one ASCII digit, optional
   * white space, then nothing but NULs; the value of the digits.
   */
  function ParseUnsigned(s: seq<char>): (r: Option<nat>)
  {
    var n := DigitRun(s);
    var tail := s[n..];
    if n == 0 || !AllNul(tail[WhiteRun(tail)..]) then None
    else Some(DigitValue(s[..n]))
  }

  /**
   * int.Parse(s) with the default integer style: optional white space, an
   * optional sign, then the unsigned part; a value outside int's range
   * raises OverflowException. None stands for any exception.
   */
  function ParseInt32(s: seq<char>): (r: Option<int>)
    ensures r.Some? ==> -TWO_31 <= r.value <= INT_MAX
  {
    var rest := s[WhiteRun(s)..];
    var negative := |rest| > 0 && rest[0] == '-';
    var unsigned := if |rest| > 0 && (rest[0] == '-' || rest[0] == '+') then ParseUnsigned(rest[1..]) else ParseUnsigned(rest);
    match unsigned
    case None => None
    case Some(v) =>
      var value := if negative then -(v as int) else v as int;
      if -TWO_31 <= value <= INT_MAX then Some(value) else None
  }

  /** The digits of n followed by more of its kind: DigitValue inverts Digits. */
  lemma {:induction false} DigitValueOfDigits(n: nat)
    ensures DigitValue(Digits(n)) == n
  {
    if n >= 10 {
      DigitValueOfDigits(n / 10);
      var d := Digits(n);
      assert d[..|d| - 1] == Digits(n / 10);
    }
  }

  /** A run of digits with nothing after it is all digits. */
  lemma {:induction false} DigitRunAll(s: seq<char>)
    requires forall i :: 0 <= i < |s| ==> '0' <= s[i] <= '9'
    ensures DigitRun(s) == |s|
  {
    if |s| > 0 {
      DigitRunAll(s[1..]);
    }
  }

  /** int.Parse(n.ToString()) == n for every non-negative int. */
  lemma ParseDigits(n: nat)
    requires n <= INT_MAX
    ensures ParseInt32(Digits(n)) == Some(n)
  {
    var s := Digits(n);
    assert WhiteRun(s) == 0;
    assert s[0..] == s;
    DigitRunAll(s);
    assert s[..|s|] == s;
    DigitValueOfDigits(n);
  }

  /** A string that starts with anything but white space, a sign or a digit does not parse. */
  lemma ParseNeedsDigit(s: seq<char>)
    requires |s| > 0 && !IsWhite(s[0]) && !('0' <= s[0] <= '9') && s[0] != '-' && s[0] != '+'
    ensures ParseInt32(s) == None
  {
    assert WhiteRun(s) == 0;
    assert s[0..] == s;
  }

  // ---------------------------------------------------------------------
  // Reading units off a tape
  // ---------------------------------------------------------------------

  /** Prefix a unit to the text read after it. */
  function Prepend(v: byte, r: Outcome<(seq<byte>, nat)>): (p: Outcome<(seq<byte>, nat)>)
    ensures r.Value? <==> p.Value?
    ensures r.Value? ==> p.value == ([v] + r.value.0, r.value.1)
    ensures r.Exception? <==> p.Exception?
  {
    match r
    case Value((text, next)) => Value(([v] + text, next))
    case Exception => Exception
    case Diverges => Diverges
  }

  /**
   * do { value = read; if (value != stop) text += value; } while (value != stop):
   * the units from pos up to the first one equal to stop, and the position
   * after it.
   */
  function ReadUntil(t: Tape, pos: nat, stop: int): (r: Outcome<(seq<byte>, nat)>)
    ensures r.Value? ==> pos < r.value.1 <= |t.cells| && |r.value.0| == r.value.1 - pos - 1
    decreases |t.cells| - pos
  {
    if pos >= |t.cells| then Stop(t.end)
    else
      match t.cells[pos]
      case Fault => Exception
      case Unit(v) => if v == stop then Value(([], pos + 1)) else Prepend(v, ReadUntil(t, pos + 1, stop))
  }

  /**
   * The length do-while: units are appended unless they are '#', and the
   * loop goes on while the unit is neither '#' nor a number, so a final
   * non-number is kept in the text.
   */
  function ReadLength(t: Tape, pos: nat): (r: Outcome<(seq<byte>, nat)>)
    ensures r.Value? ==> pos < r.value.1 <= |t.cells|
    decreases |t.cells| - pos
  {
    if pos >= |t.cells| then Stop(t.end)
    else
      match t.cells[pos]
      case Fault => Exception
      case Unit(v) =>
        if v == '#' as int then Value(([], pos + 1))
        else if !IsNumber(v) then Value(([v], pos + 1))
        else Prepend(v, ReadLength(t, pos + 1))
  }

  /** for (i = 0; i < count; i++) file[i] = (byte)read: count units from pos. */
  function ReadBytes(t: Tape, pos: nat, count: nat): (r: Outcome<seq<byte>>)
    ensures r.Value? ==> |r.value| == count
    ensures r.Value? && count > 0 ==> pos + count <= |t.cells|
    decreases count
  {
    if count == 0 then Value([])
    else if pos >= |t.cells| then Stop(t.end)
    else
      match t.cells[pos]
      case Fault => Exception
      case Unit(v) =>
        match ReadBytes(t, pos + 1, count - 1)
        case Value(rest) => Value([v] + rest)
        case Exception => Exception
        case Diverges => Diverges
  }

  /**
   * The end of the text decoders: AESEncrypt.DecryptString(text, pass),
   * where decrypt stands for it and None for the exception it raises,
   * which is caught and turned into the empty string.
   */
  function DecryptOrEmpty(read: Outcome<seq<char>>, decrypt: (seq<char>, seq<char>) -> Option<seq<char>>, pass: seq<char>): (r: Outcome<seq<char>>)
    ensures read.Value? <==> r.Value?
    ensures read.Value? ==> r.value == (if decrypt(read.value, pass).Some? then decrypt(read.value, pass).value else [])
    ensures !read.Value? ==> r == read
  {
    match read
    case Value(text) => Value(match decrypt(text, pass) case Some(plain) => plain case None => [])
    case Exception => Exception
    case Diverges => Diverges
  }

  /** The text decoders before decryption: the units up to the stop unit, as characters. */
  function DecodeText(t: Tape, stop: int): (r: Outcome<seq<char>>)
  {
    match ReadUntil(t, 0, stop)
    case Value((text, _)) => Value(Chars(text))
    case Exception => Exception
    case Diverges => Diverges
  }

  /**
   * The file decoders before deciphering: the length text and int.Parse,
   * the file name up to 0, then new byte[length] (OverflowException when
   * negative, OutOfMemoryException past Array.MaxLength) and its bytes.
   */
  function DecodeFile(t: Tape): (r: Outcome<(seq<char>, seq<byte>)>)
  {
    match ReadLength(t, 0)
    case Exception => Exception
    case Diverges => Diverges
    case Value((text, p)) =>
      match ParseInt32(Chars(text))
      case None => Exception
      case Some(length) =>
        match ReadUntil(t, p, 0)
        case Exception => Exception
        case Diverges => Diverges
        case Value((name, q)) =>
          if length < 0 || length > MAX_LIST_LENGTH then Exception
          else
            match ReadBytes(t, q, length)
            case Value(bytes) => Value((Chars(name), bytes))
            case Exception => Exception
            case Diverges => Diverges
  }

  // ---------------------------------------------------------------------
  // The frames and their round trips
  // ---------------------------------------------------------------------

  /** The units of the text frame: the characters, then 0. */
  function TextFrame(text: seq<char>): (f: seq<int>)
    ensures |f| == |text| + 1 && f[|text|] == 0
  {
    Codes(text) + [0]
  }

  /** The units of the file frame: the length digits, '#', the name, 0, the bytes. */
  function FileFrame(name: seq<char>, bytes: seq<byte>): (f: seq<int>)
    ensures |f| == |bytes| + ExtraBytes(name, |bytes|)
  {
    Codes(Digits(|bytes|)) + ['#' as int] + Codes(name) + [0] + bytes
  }

  /** extraBytes = 2 + filename.Length + file.Length.ToString().Length: the frame's units besides the bytes. */
  function ExtraBytes(name: seq<char>, length: nat): nat
  {
    2 + |name| + |Digits(length)|
  }

  /** The tape holds the frame from position pos: each unit as its low byte, which is what a carrier keeps. */
  predicate Holds(t: Tape, pos: nat, frame: seq<int>)
  {
    pos + |frame| <= |t.cells| && forall k :: 0 <= k < |frame| ==> t.cells[pos + k] == Unit(frame[k] % 256)
  }

  /** Characters a unit carries unchanged and that do not end a text: 1 to 255. */
  predicate Plain(s: seq<char>)
  {
    forall i :: 0 <= i < |s| ==> 0 < s[i] as int < 256
  }

  /** A tape holding the frame from pos also holds each later part of it. */
  lemma HoldsSuffix(t: Tape, pos: nat, frame: seq<int>, k: nat)
    requires Holds(t, pos, frame) && k <= |frame|
    ensures Holds(t, pos + k, frame[k..])
  {
    forall j | 0 <= j < |frame| - k
      ensures t.cells[pos + k + j] == Unit(frame[k..][j] % 256)
    {
      assert t.cells[pos + (k + j)] == Unit(frame[k + j] % 256);
    }
  }

  /** A unit other than stop is kept in front of what the rest of the loop reads. */
  lemma ReadUntilStep(t: Tape, pos: nat, stop: int, v: byte)
    requires pos < |t.cells| && t.cells[pos] == Unit(v) && v != stop
    ensures ReadUntil(t, pos, stop) == Prepend(v, ReadUntil(t, pos + 1, stop))
  {
  }

  /** A decimal digit is kept in front of what the rest of the length loop reads. */
  lemma ReadLengthStep(t: Tape, pos: nat, v: byte)
    requires pos < |t.cells| && t.cells[pos] == Unit(v) && '0' as int <= v <= '9' as int
    ensures ReadLength(t, pos) == Prepend(v, ReadLength(t, pos + 1))
  {
    assert IsNumber(v);
  }

  /** The characters of a unit and the units after it. */
  lemma CharsCons(v: byte, rest: seq<byte>)
    ensures Chars([v] + rest) == [v as char] + Chars(rest)
  {
  }

  /** The units of a string and a final unit, after the first character. */
  lemma CodesTail(s: seq<char>, last: int)
    requires |s| > 0
    ensures (Codes(s) + [last])[0] == s[0] as int
    ensures (Codes(s) + [last])[1..] == Codes(s[1..]) + [last]
  {
  }

  /** Reading a plain string and the 0 after it gives the string back, and the position after the 0. */
  lemma {:induction false} ReadUntilPlain(t: Tape, pos: nat, s: seq<char>)
    requires Plain(s) && Holds(t, pos, Codes(s) + [0])
    ensures ReadUntil(t, pos, 0).Value?
    ensures Chars(ReadUntil(t, pos, 0).value.0) == s && ReadUntil(t, pos, 0).value.1 == pos + |s| + 1
    decreases |s|
  {
    var codes := Codes(s) + [0];
    assert t.cells[pos] == Unit(codes[0] % 256);
    if |s| > 0 {
      var v: byte := s[0] as int;
      CodesTail(s, 0);
      HoldsSuffix(t, pos, codes, 1);
      ReadUntilPlain(t, pos + 1, s[1..]);
      ReadUntilStep(t, pos, 0, v);
      CharsCons(v, ReadUntil(t, pos + 1, 0).value.0);
      assert [s[0]] + s[1..] == s;
    }
  }

  /** The length do-while over decimal digits and the '#' after them reads exactly the digits. */
  lemma {:induction false} ReadLengthDigits(t: Tape, pos: nat, s: seq<char>)
    requires (forall i :: 0 <= i < |s| ==> '0' <= s[i] <= '9') && Holds(t, pos, Codes(s) + ['#' as int])
    ensures ReadLength(t, pos).Value?
    ensures Chars(ReadLength(t, pos).value.0) == s && ReadLength(t, pos).value.1 == pos + |s| + 1
    decreases |s|
  {
    var codes := Codes(s) + ['#' as int];
    assert t.cells[pos] == Unit(codes[0] % 256);
    if |s| > 0 {
      var v: byte := s[0] as int;
      CodesTail(s, '#' as int);
      HoldsSuffix(t, pos, codes, 1);
      ReadLengthDigits(t, pos + 1, s[1..]);
      ReadLengthStep(t, pos, v);
      CharsCons(v, ReadLength(t, pos + 1).value.0);
      assert [s[0]] + s[1..] == s;
    }
  }

  /** Reading as many units as the tape holds bytes gives the bytes. */
  lemma {:induction false} ReadBytesHeld(t: Tape, pos: nat, bytes: seq<byte>)
    requires Holds(t, pos, bytes)
    ensures ReadBytes(t, pos, |bytes|) == Value(bytes)
    decreases |bytes|
  {
    if |bytes| > 0 {
      assert t.cells[pos] == Unit(bytes[0] % 256);
      HoldsSuffix(t, pos, bytes, 1);
      ReadBytesHeld(t, pos + 1, bytes[1..]);
      assert [bytes[0]] + bytes[1..] == bytes;
    }
  }

  /** A tape holding a + b holds a where it starts and b right after it. */
  lemma HoldsSplit(t: Tape, pos: nat, a: seq<int>, b: seq<int>)
    requires Holds(t, pos, a + b)
    ensures Holds(t, pos, a) && Holds(t, pos + |a|, b)
  {
    forall k | 0 <= k < |a|
      ensures t.cells[pos + k] == Unit(a[k] % 256)
    {
      assert (a + b)[k] == a[k];
    }
    HoldsSuffix(t, pos, a + b, |a|);
    assert (a + b)[|a|..] == b;
  }

  /** Text round trip: a decoder stopping at 0 reads back a plain text from a tape holding its frame. */
  lemma TextRoundTrip(t: Tape, text: seq<char>)
    requires Plain(text) && Holds(t, 0, TextFrame(text))
    ensures DecodeText(t, 0) == Value(text)
  {
    ReadUntilPlain(t, 0, text);
  }

  /**
   * File round trip: the file decoder reads back the name and the bytes
   * from a tape holding the file frame, for a plain name and any file an
   * array can hold.
   */
  lemma FileRoundTrip(t: Tape, name: seq<char>, bytes: seq<byte>)
    requires Plain(name) && |bytes| <= MAX_LIST_LENGTH && Holds(t, 0, FileFrame(name, bytes))
    ensures DecodeFile(t) == Value((name, bytes))
  {
    var digits := Digits(|bytes|);
    var head := Codes(digits) + ['#' as int];
    var tag := Codes(name) + [0];
    assert Holds(t, 0, head) && Holds(t, |head|, tag) && Holds(t, |head| + |tag|, bytes) by {
      assert FileFrame(name, bytes) == head + (tag + bytes);
      HoldsSplit(t, 0, head, tag + bytes);
      HoldsSplit(t, |head|, tag, bytes);
    }
    var length := ReadLength(t, 0);
    assert length.Value? && Chars(length.value.0) == digits && length.value.1 == |head| by {
      ReadLengthDigits(t, 0, digits);
    }
    assert ParseInt32(Chars(length.value.0)) == Some(|bytes|) by {
      ParseDigits(|bytes|);
    }
    var named := ReadUntil(t, |head|, 0);
    assert named.Value? && Chars(named.value.0) == name && named.value.1 == |head| + |tag| by {
      ReadUntilPlain(t, |head|, name);
    }
    assert ReadBytes(t, |head| + |tag|, |bytes|) == Value(bytes) by {
      ReadBytesHeld(t, |head| + |tag|, bytes);
    }
  }

  /** Units other than stop from pos on are read into the text, in order. */
  lemma {:induction false} ReadUntilPrefix(t: Tape, pos: nat, stop: int, prefix: seq<byte>)
    requires pos + |prefix| <= |t.cells|
    requires forall k :: 0 <= k < |prefix| ==> t.cells[pos + k] == Unit(prefix[k]) && prefix[k] != stop
    requires ReadUntil(t, pos, stop).Value?
    ensures |prefix| <= |ReadUntil(t, pos, stop).value.0|
    ensures ReadUntil(t, pos, stop).value.0[..|prefix|] == prefix
    decreases |prefix|
  {
    if |prefix| > 0 {
      assert t.cells[pos] == Unit(prefix[0]);
      forall k | 0 <= k < |prefix| - 1
        ensures t.cells[pos + 1 + k] == Unit(prefix[1..][k]) && prefix[1..][k] != stop
      {
        assert t.cells[pos + (k + 1)] == Unit(prefix[k + 1]);
      }
      ReadUntilPrefix(t, pos + 1, stop, prefix[1..]);
      var rest := ReadUntil(t, pos + 1, stop).value.0;
      assert ReadUntil(t, pos, stop).value.0 == [prefix[0]] + rest;
      assert ([prefix[0]] + rest)[..|prefix|] == [prefix[0]] + rest[..|prefix| - 1];
      assert [prefix[0]] + prefix[1..] == prefix;
    }
  }

  /**
   * The units the linear text embedders leave: the text, with its last
   * character then overwritten by the 0 written at max(length - 1, 0).
   */
  function LinearTextFrame(text: seq<char>): (f: seq<int>)
    ensures |f| == if |text| == 0 then 1 else |text|
  {
    if |text| == 0 then [0] else Codes(text[..|text| - 1]) + [0]
  }

  /**
   * The linear text decoders stop at 255, not at 0, and the 0 stands where
   * the last character was: whatever they return, it is not the text that
   * was embedded (for a non-empty text of characters 1 to 254).
   */
  lemma LinearTextLost(t: Tape, text: seq<char>)
    requires |text| > 0 && Plain(text) && (forall i :: 0 <= i < |text| ==> text[i] as int != 255)
    requires Holds(t, 0, LinearTextFrame(text))
    ensures DecodeText(t, 255) != Value(text)
  {
    var frame := LinearTextFrame(text);
    var prefix := seq(|frame|, k requires 0 <= k < |frame| => frame[k] % 256);
    forall k | 0 <= k < |prefix|
      ensures t.cells[k] == Unit(prefix[k]) && prefix[k] != 255
    {
      assert t.cells[0 + k] == Unit(frame[k] % 256);
    }
    if ReadUntil(t, 0, 255).Value? {
      ReadUntilPrefix(t, 0, 255, prefix);
      var read := ReadUntil(t, 0, 255).value.0;
      assert read[|text| - 1] == prefix[|text| - 1] == 0;
      assert Chars(read)[|text| - 1] as int == 0;
    }
  }

  // ---------------------------------------------------------------------
  // The decoder loops
  // ---------------------------------------------------------------------

  /** The units read so far in front of what the rest of a loop reads. */
  function After(text: seq<byte>, r: Outcome<(seq<byte>, nat)>): (a: Outcome<(seq<byte>, nat)>)
    ensures r.Value? <==> a.Value?
    ensures r.Value? ==> a.value == (text + r.value.0, r.value.1)
    ensures !r.Value? ==> a == r
  {
    match r
    case Value((rest, next)) => Value((text + rest, next))
    case Exception => Exception
    case Diverges => Diverges
  }

  /** Nothing read so far: the loop reads what the rest of it reads. */
  lemma AfterNothing(r: Outcome<(seq<byte>, nat)>)
    ensures After([], r) == r
  {
    if r.Value? {
      assert [] + r.value.0 == r.value.0;
    }
  }

  /** Appending one unit to the text read so far is prefixing it to what is read after. */
  lemma AfterPrepend(text: seq<byte>, v: byte, r: Outcome<(seq<byte>, nat)>)
    ensures After(text, Prepend(v, r)) == After(text + [v], r)
  {
    if r.Value? {
      assert text + ([v] + r.value.0) == (text + [v]) + r.value.0;
    }
  }

  /**
   * The do-while of the text decoders and of the file-name read: append
   * every unit other than stop, until stop.
   */
  method ReadUntilLoop(t: Tape, pos: nat, stop: int) returns (r: Outcome<(seq<byte>, nat)>)
    requires pos <= |t.cells|
    ensures r == ReadUntil(t, pos, stop)
  {
    var text: seq<byte> := [];
    var p := pos;
    AfterNothing(ReadUntil(t, pos, stop));
    while true
      invariant pos <= p <= |t.cells|
      invariant ReadUntil(t, pos, stop) == After(text, ReadUntil(t, p, stop))
      decreases |t.cells| - p
    {
      if p == |t.cells| {
        return Stop(t.end);
      }
      if t.cells[p].Fault? {
        return Exception;
      }
      var value := t.cells[p].value;
      p := p + 1;
      if value == stop {
        assert text + [] == text;
        return Value((text, p));
      }
      AfterPrepend(text, value, ReadUntil(t, p, stop));
      text := text + [value];
    }
  }

  /** The do-while of the length read: append every unit but '#', until '#' or a non-number. */
  method ReadLengthLoop(t: Tape) returns (r: Outcome<(seq<byte>, nat)>)
    ensures r == ReadLength(t, 0)
  {
    var text: seq<byte> := [];
    var p := 0;
    AfterNothing(ReadLength(t, 0));
    while true
      invariant p <= |t.cells|
      invariant ReadLength(t, 0) == After(text, ReadLength(t, p))
      decreases |t.cells| - p
    {
      if p == |t.cells| {
        return Stop(t.end);
      }
      if t.cells[p].Fault? {
        return Exception;
      }
      var value := t.cells[p].value;
      p := p + 1;
      if value != '#' as int {
        if IsNumber(value) {
          AfterPrepend(text, value, ReadLength(t, p));
        }
        text := text + [value];
      }
      if value == '#' as int || !IsNumber(value) {
        assert value == '#' as int ==> text + [] == text;
        return Value((text, p));
      }
    }
  }

  /** The bytes read so far in front of what the rest of the loop reads. */
  function Then(prefix: seq<byte>, r: Outcome<seq<byte>>): (a: Outcome<seq<byte>>)
    ensures r.Value? <==> a.Value?
    ensures r.Value? ==> a.value == prefix + r.value
    ensures !r.Value? ==> a == r
  {
    match r
    case Value(rest) => Value(prefix + rest)
    case Exception => Exception
    case Diverges => Diverges
  }

  /** The for loop of the file decoders: file[i] = (byte)read for every i, into the array allocated for it. */
  method FillBytes(t: Tape, pos: nat, file: array<byte>) returns (r: Outcome<()>)
    modifies file
    ensures r.Value? <==> ReadBytes(t, pos, file.Length).Value?
    ensures r.Exception? <==> ReadBytes(t, pos, file.Length).Exception?
    ensures r.Value? ==> file[..] == ReadBytes(t, pos, file.Length).value
  {
    var i := 0;
    var all := ReadBytes(t, pos, file.Length);
    assert Then(file[..0], all) == all by {
      if all.Value? {
        assert file[..0] + all.value == all.value;
      }
    }
    while i < file.Length
      invariant 0 <= i <= file.Length
      invariant ReadBytes(t, pos, file.Length) == Then(file[..i], ReadBytes(t, pos + i, file.Length - i))
    {
      if pos + i >= |t.cells| {
        return Stop(t.end);
      }
      if t.cells[pos + i].Fault? {
        return Exception;
      }
      var rest := ReadBytes(t, pos + i + 1, file.Length - i - 1);
      assert rest.Value? ==> file[..i] + ([t.cells[pos + i].value] + rest.value) == file[..i] + [t.cells[pos + i].value] + rest.value;
      file[i] := t.cells[pos + i].value;
      assert file[..i + 1] == file[..i] + [file[i]];
      i := i + 1;
    }
    assert file[..i] + [] == file[..];
    return Value(());
  }

  /**
   * The body of the file decoders: the length loop and int.Parse, the
   * name loop, new byte[length], then the bytes loop.
   */
  method DecodeFileLoop(t: Tape) returns (r: Outcome<(seq<char>, array<byte>)>)
    ensures r.Value? <==> DecodeFile(t).Value?
    ensures r.Exception? <==> DecodeFile(t).Exception?
    ensures r.Value? ==> fresh(r.value.1) && r.value.0 == DecodeFile(t).value.0 && r.value.1[..] == DecodeFile(t).value.1
  {
    var length := ReadLengthLoop(t);
    if !length.Value? {
      return if length.Exception? then Exception else Diverges;
    }
    var (text, p) := length.value;
    var parsed := ParseInt32(Chars(text));
    if parsed.None? {
      return Exception;
    }
    var named := ReadUntilLoop(t, p, 0);
    if !named.Value? {
      return if named.Exception? then Exception else Diverges;
    }
    var (name, q) := named.value;
    if parsed.value < 0 || parsed.value > MAX_LIST_LENGTH {
      return Exception;
    }
    var file := new byte[parsed.value];
    var filled := FillBytes(t, q, file);
    if !filled.Value? {
      return if filled.Exception? then Exception else Diverges;
    }
    return Value((Chars(name), file));
  }
}
