/** `LogStream` of base/log_stream.h and base/log_stream.cpp: formatting into one small buffer. */
module LogStreams {
  import opened LogBuffer
  import opened Numerals

  const MAX_NUMERIC_SIZE := 32

  /** What is streamed: text of any kind, a 64-bit integer (shorter types are widened), a pointer. */
  datatype Item = Text(s: string) | Number(v: int) | Pointer(p: nat)

  ghost predicate ValidItem(x: Item) {
    match x
    case Text(_) => true
    case Number(v) => -0x8000_0000_0000_0000 <= v <= 0xffff_ffff_ffff_ffff
    case Pointer(p) => p <= 0xffff_ffff_ffff_ffff
  }

  function Rendering(x: Item): string {
    match x
    case Text(s) => s
    case Number(v) => Decimal(v)
    case Pointer(p) => "0x" + Numeral(p, 16)
  }

  /** Text is cut to the space left; a number goes in whole, and only while 32 characters are left. */
  function Put(text: string, x: Item): string
    requires |text| <= SMALL_BUFFER
  {
    var avail := SMALL_BUFFER - |text|;
    match x
    case Text(s) => text + (if avail > |s| then s else s[..avail])
    case _ => if avail >= MAX_NUMERIC_SIZE then text + Rendering(x) else text
  }

  class LogStream {
    const buffer: FixedBuffer

    ghost predicate Valid()
      reads this, buffer, buffer.data
    {
      buffer.Valid() && buffer.data.Length == SMALL_BUFFER
    }

    constructor ()
      ensures Valid() && fresh(buffer) && fresh(buffer.data) && buffer.text == ""
    {
      buffer := new FixedBuffer(SMALL_BUFFER);
    }

    /** The operators for strings, characters and booleans. */
    method AppendText(s: string)
      requires Valid()
      modifies buffer, buffer.data
      ensures Valid() && buffer.text == Put(old(buffer.text), Text(s))
    {
      buffer.Append(s);
    }

    /** A null pointer to characters prints as "(null)". */
    method AppendCString(s: string, isNull: bool)
      requires Valid()
      modifies buffer, buffer.data
      ensures Valid() && buffer.text == Put(old(buffer.text), Text(if isNull then "(null)" else s))
    {
      if isNull {
        buffer.Append("(null)");
      } else {
        buffer.Append(s);
      }
    }

    method AppendBool(v: bool)
      requires Valid()
      modifies buffer, buffer.data
      ensures Valid() && buffer.text == Put(old(buffer.text), Text(if v then "1" else "0"))
    {
      buffer.Append(if v then "1" else "0");
    }

    /** Every write of `convert`, its NUL included, falls inside the buffer. */
    method FormatInteger(v: int)
      requires Valid() && ValidItem(Number(v))
      modifies buffer, buffer.data
      ensures Valid() && buffer.text == Put(old(buffer.text), Number(v))
    {
      hide Numeral, Decimal;
      if buffer.Avail() >= MAX_NUMERIC_SIZE {
        TextIsShort(v);
        ghost var before := buffer.text;
        var len := Convert(buffer.data, buffer.cur, v);
        assert buffer.data[..buffer.cur] == before;
        buffer.Add(len);
      }
    }

    method AppendPointer(p: nat)
      requires Valid() && ValidItem(Pointer(p))
      modifies buffer, buffer.data
      ensures Valid() && buffer.text == Put(old(buffer.text), Pointer(p))
    {
      hide Numeral;
      if buffer.Avail() >= MAX_NUMERIC_SIZE {
        TextIsShort(p);
        ghost var before := buffer.text;
        var at := buffer.cur;
        buffer.data[at] := '0';
        buffer.data[at + 1] := 'x';
        assert buffer.data[..at] == before && buffer.data[..at + 2] == before + "0x";
        var len := ConvertHex(buffer.data, at + 2, p);
        assert buffer.data[..at] == buffer.data[..at + 2][..at];
        assert buffer.data[at..at + len + 2] == buffer.data[..at + 2][at..] + buffer.data[at + 2..at + 2 + len];
        buffer.Add(len + 2);
      }
    }

    method ResetBuffer()
      requires Valid()
      modifies buffer
      ensures Valid() && buffer.text == ""
    {
      buffer.Reset();
    }
  }

  // ---------------------------------------------------------------- properties

  /** The buffer after a sequence of operations on an empty stream. */
  function Stream(xs: seq<Item>): (text: string)
    ensures |text| <= SMALL_BUFFER || exists x :: x in xs && !ValidItem(x)
  {
    if xs == [] then ""
    else
      var before := Stream(xs[..|xs| - 1]);
      if |before| > SMALL_BUFFER then before
      else
        var x := xs[|xs| - 1];
        PutFits(before, x);
        Put(before, x)
  }

  lemma PutFits(text: string, x: Item)
    requires |text| <= SMALL_BUFFER
    ensures ValidItem(x) ==> |Put(text, x)| <= SMALL_BUFFER
    ensures ValidItem(x) && !x.Text? ==> |Rendering(x)| <= 20
  {
    hide Numeral, Decimal;
    if ValidItem(x) {
      match x
      case Text(s) =>
      case Number(v) => TextIsShort(v);
      case Pointer(p) => TextIsShort(p);
    }
  }

  function Concat(xs: seq<Item>): string {
    if xs == [] then "" else Concat(xs[..|xs| - 1]) + Rendering(xs[|xs| - 1])
  }

  /** All of it fits, and whenever a number came there were 32 characters left. */
  ghost predicate Fits(xs: seq<Item>) {
    xs == [] ||
    (var front, x := xs[..|xs| - 1], xs[|xs| - 1];
     && Fits(front) && |Concat(xs)| <= SMALL_BUFFER
     && (x.Text? || |Concat(front)| + MAX_NUMERIC_SIZE <= SMALL_BUFFER))
  }

  lemma {:induction false} StreamLength(xs: seq<Item>)
    requires forall x :: x in xs ==> ValidItem(x)
    ensures |Stream(xs)| <= SMALL_BUFFER && |Stream(xs)| <= |Concat(xs)|
    ensures Fits(xs) ==> Stream(xs) == Concat(xs)
    ensures |Stream(xs)| == |Concat(xs)| ==> Fits(xs)
  {
    hide Rendering;
    if xs != [] {
      var front, x := xs[..|xs| - 1], xs[|xs| - 1];
      StreamLength(front);
      PutFits(Stream(front), x);
      RenderingOf(x);
    }
  }

  lemma RenderingOf(x: Item)
    ensures x.Text? ==> Rendering(x) == x.s
    ensures !x.Text? ==> Rendering(x) != ""
  {
  }

  /** The stream holds everything that was put in exactly if it all fitted. */
  lemma NothingLostExactly(xs: seq<Item>)
    requires forall x :: x in xs ==> ValidItem(x)
    ensures |Stream(xs)| <= SMALL_BUFFER
    ensures Stream(xs) == Concat(xs) <==> Fits(xs)
  {
    StreamLength(xs);
  }

  /** A pointer's text is a prefix and canonical hexadecimal digits, from which it reads back. */
  lemma PointerReadsBack(p: nat)
    ensures var s := Rendering(Pointer(p));
            && s[..2] == "0x" && Canonical(s[2..], 16) && ReadNumeral(s[2..], 16) == p
  {
    NumeralReadsBack(p, 16);
    assert ("0x" + Numeral(p, 16))[2..] == Numeral(p, 16);
  }

  /** Text that does not fit fills the buffer to the last character: what is there is a prefix of what was asked for. */
  lemma TextFills(text: string, s: string)
    requires |text| <= SMALL_BUFFER
    ensures var all := text + s;
            Put(text, Text(s)) == if |all| <= SMALL_BUFFER then all else all[..SMALL_BUFFER]
  {
    if |text + s| > SMALL_BUFFER {
      assert (text + s)[..SMALL_BUFFER] == text + s[..SMALL_BUFFER - |text|];
    } else {
      assert s[..|s|] == s;
    }
  }

  /** A number goes in whole, or, with less than 32 characters left, not at all. */
  lemma NumberWholeOrNot(text: string, x: Item)
    requires |text| <= SMALL_BUFFER && ValidItem(x) && !x.Text?
    ensures Put(text, x) == (if |text| <= 3968 then text + Rendering(x) else text)
    ensures |Put(text, x)| <= |text| + 20 <= SMALL_BUFFER + 20
  {
    PutFits(text, x);
  }
}
