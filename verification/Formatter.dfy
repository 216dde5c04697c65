/** vprintf: a format string, its arguments, and the characters sent to the console. */
module Formatter {
  import opened Arithmetic
  import opened Wrappers
  import opened Numerals

  /** What the caller passed for one directive; a text is a C string, None a null pointer. */
  datatype Arg = Unsigned(u: nat) | Signed(i: int) | Character(c: char) | Text(s: Option<string>)

  datatype Directive = Literal(c: char) | Hex(prefix: bool) | Char | Str | Decimal | UnsignedDecimal | Percent | Unknown(c: char)

  // ----- what a format means -------------------------------------------------------

  function DirectiveOf(c: char): Directive
  {
    match c
    case 'x' => Hex(false)
    case 'p' => Hex(true)
    case 'c' => Char
    case 's' => Str
    case 'd' => Decimal
    case 'u' => UnsignedDecimal
    case '%' => Percent
    case _ => Unknown(c)
  }

  /** The directive at the front of a nonempty format and its length; None if it runs into the terminator. */
  function FirstDirective(f: string): (r: Option<(Directive, nat)>)
    requires f != []
    ensures r.Some? ==> 0 < r.value.1 <= |f|
  {
    if f[0] != '%' then Some((Literal(f[0]), 1))
    else if |f| < 2 then None
    else if f[1] != 'l' then Some((DirectiveOf(f[1]), 2))
    else if |f| < 3 then None
    else Some((Hex(f[2] == 'p'), 3))
  }

  function Parse(f: string): Option<seq<Directive>>
  {
    if f == [] then Some([])
    else
      match FirstDirective(f)
      case None => None
      case Some((d, n)) =>
        match Parse(f[n..])
        case None => None
        case Some(ds) => Some([d] + ds)
  }

  predicate TakesArg(d: Directive)
  {
    !d.Literal? && !d.Percent? && !d.Unknown?
  }

  predicate Fits(d: Directive, a: Arg)
  {
    match d
    case Hex(_) => (a.Unsigned? && a.u < TWO_64) || (a.Signed? && -(TWO_63 as int) <= a.i < TWO_63)
    case UnsignedDecimal => a.Unsigned? && a.u < TWO_64
    case Decimal => a.Signed? && -(TWO_63 as int) < a.i < TWO_63
    case Char => a.Character?
    case Str => a.Text? && (a.s.Some? ==> NUL !in a.s.value)
    case _ => false
  }

  /** The 64 bits of an integer argument read as unsigned: a negative number is in two's complement. */
  function Word(a: Arg): (w: nat)
    requires Fits(Hex(false), a)
    ensures w < TWO_64
  {
    match a
    case Unsigned(u) => u
    case Signed(i) => if i < 0 then i + TWO_64 else i
  }

  /** The arguments are, one for one, what the directives take. */
  predicate Matches(ds: seq<Directive>, args: seq<Arg>)
  {
    if ds == [] then true
    else if TakesArg(ds[0]) then args != [] && Fits(ds[0], args[0]) && Matches(ds[1..], args[1..])
    else Matches(ds[1..], args)
  }

  function RenderPlain(d: Directive): string
  {
    match d
    case Literal(c) => if c == '\n' then ['\r', '\n'] else [c]
    case Percent => "%"
    case Unknown(c) => ['%', c]
    case _ => []
  }

  function RenderSign(d: Directive, a: Arg): string
    requires Fits(d, a)
  {
    match d
    case Hex(true) => "0x"
    case Decimal => if a.i < 0 then "-" else ""
    case _ => ""
  }

  function RenderBody(d: Directive, a: Arg): string
    requires Fits(d, a)
  {
    match d
    case Hex(_) => Numeral(Word(a), 16)
    case UnsignedDecimal => Numeral(a.u, 10)
    case Decimal => Numeral(if a.i < 0 then -a.i else a.i, 10)
    case Char => [a.c]
    case Str => if a.s.Some? then a.s.value else "(null)"
    case _ => ""
  }

  function RenderArg(d: Directive, a: Arg): string
    requires Fits(d, a)
  {
    RenderSign(d, a) + RenderBody(d, a)
  }

  lemma NoSign(d: Directive, a: Arg)
    requires Fits(d, a) && RenderSign(d, a) == ""
    ensures RenderArg(d, a) == RenderBody(d, a)
  {
  }

  /** What the directive at the front contributes. */
  function Piece(d: Directive, args: seq<Arg>, arg: nat): string
    requires TakesArg(d) ==> arg < |args| && Fits(d, args[arg])
  {
    if TakesArg(d) then RenderArg(d, args[arg]) else RenderPlain(d)
  }

  lemma Associate(a: string, b: string, c: string)
    ensures (a + b) + c == a + (b + c)
  {
  }

  function Render(ds: seq<Directive>, args: seq<Arg>): string
    requires Matches(ds, args)
  {
    if ds == [] then []
    else if TakesArg(ds[0]) then RenderArg(ds[0], args[0]) + Render(ds[1..], args[1..])
    else RenderPlain(ds[0]) + Render(ds[1..], args)
  }

  // ----- vprintf ---------------------------------------------------------------------

  class Console {
    var hasPutc: bool
    var sent: string

    constructor (hasPutc: bool)
      ensures this.hasPutc == hasPutc && sent == []
    {
      this.hasPutc, sent := hasPutc, [];
    }

    method Putc(c: char)
      modifies `sent
      ensures sent == old(sent) + [c]
    {
      sent := sent + [c];
    }

    /** for (; *str; str++) putc(*str) */
    method PutString(s: string) returns (n: nat)
      modifies `sent
      ensures sent == old(sent) + s && n == |s|
    {
      n := 0;
      while n < |s|
        invariant n <= |s| && sent == old(sent) + s[..n]
      {
        Putc(s[n]);
        n := n + 1;
      }
      assert s[..n] == s;
    }

    /** itoa into a 64-byte buffer, then the buffer up to its terminator. */
    method PutNumber(num: nat, base: nat) returns (n: nat)
      requires num < TWO_64 && (base == 10 || base == 16)
      modifies `sent
      ensures sent == old(sent) + Numeral(num, base) && n == |Numeral(num, base)|
    {
      NumeralFits(num);
      var buf := new char[64](_ => NUL);
      Itoa(num, base, buf);
      ghost var t := Numeral(num, base);
      forall k | 0 <= k < |t| ensures buf[k] == t[k] && t[k] != NUL {
        assert buf[k] == buf[..|t|][k] && t[k] in t;
      }
      n := PutBuffer(buf, t);
    }

    /** for (char *str = buf; *str; str++) putc(*str) */
    method PutBuffer(buf: array<char>, ghost t: string) returns (n: nat)
      requires |t| < buf.Length && buf[|t|] == NUL
      requires forall k :: 0 <= k < |t| ==> buf[k] == t[k] && t[k] != NUL
      modifies `sent
      ensures sent == old(sent) + t && n == |t|
    {
      n := 0;
      while buf[n] != NUL
        invariant n <= |t|
        invariant sent == old(sent) + t[..n]
        decreases |t| - n
      {
        assert t[..n + 1] == t[..n] + [t[n]];
        Putc(buf[n]);
        n := n + 1;
      }
      assert t[..n] == t;
    }

    /** A plain character, with a carriage return before a newline. */
    method PutLiteral(c: char) returns (n: nat)
      modifies `sent
      ensures sent == old(sent) + RenderPlain(Literal(c)) && n == |RenderPlain(Literal(c))|
    {
      n := 0;
      if c == '\n' {
        Putc('\r');
        n := n + 1;
      }
      Putc(c);
      n := n + 1;
    }

    method PutHex(pointer: bool, num: nat) returns (n: nat)
      requires num < TWO_64
      modifies `sent
      ensures sent == old(sent) + ((if pointer then "0x" else "") + Numeral(num, 16))
      ensures n == (if pointer then 2 else 0) + |Numeral(num, 16)|
    {
      n := 0;
      if pointer {
        Putc('0');
        Putc('x');
        n := 2;
      }
      assert sent == old(sent) + if pointer then "0x" else "";
      var m := PutNumber(num, 16);
      Associate(old(sent), if pointer then "0x" else "", Numeral(num, 16));
      n := n + m;
    }

    method PutDecimal(i: int) returns (n: nat)
      requires -(TWO_63 as int) < i < TWO_63
      modifies `sent
      ensures sent == old(sent) + RenderArg(Decimal, Signed(i)) && n == |RenderArg(Decimal, Signed(i))|
    {
      n := 0;
      var num := i;
      if num < 0 {
        Putc('-');
        n := 1;
        num := -num;
      }
      assert sent == old(sent) + RenderSign(Decimal, Signed(i));
      var m := PutNumber(num, 10);
      Associate(old(sent), RenderSign(Decimal, Signed(i)), RenderBody(Decimal, Signed(i)));
      n := n + m;
    }

    /** An integer argument in hexadecimal, as its 64 bits. */
    method PutInteger(d: Directive, a: Arg) returns (n: nat)
      requires d.Hex? && Fits(d, a)
      modifies `sent
      ensures sent == old(sent) + RenderArg(d, a) && n == |RenderArg(d, a)|
    {
      n := PutHex(d.prefix, Word(a));
    }

    /** The switch on the character after '%', or after "%l". */
    method PutConversion(long: bool, c: char, ghost d: Directive, args: seq<Arg>, arg: nat) returns (n: nat, taken: nat)
      requires d == if long then Hex(c == 'p') else DirectiveOf(c)
      requires TakesArg(d) ==> arg < |args| && Fits(d, args[arg])
      modifies `sent
      ensures sent == old(sent) + Piece(d, args, arg) && n == |Piece(d, args, arg)|
      ensures taken == if TakesArg(d) then 1 else 0
    {
      taken := 1;
      if long || c == 'x' || c == 'p' {
        n := PutInteger(Hex(c == 'p'), args[arg]);
      } else if c == 'c' {
        NoSign(Char, args[arg]);
        Putc(args[arg].c);
        n := 1;
      } else if c == 's' {
        NoSign(Str, args[arg]);
        n := PutString(if args[arg].s.None? then "(null)" else args[arg].s.value);
      } else if c == 'd' {
        n := PutDecimal(args[arg].i);
      } else if c == 'u' {
        NoSign(UnsignedDecimal, args[arg]);
        n := PutNumber(args[arg].u, 10);
      } else {
        taken := 0;
        n := PutOther(c);
      }
    }

    /** "%%", and any character that is no conversion. */
    method PutOther(c: char) returns (n: nat)
      requires !TakesArg(DirectiveOf(c))
      modifies `sent
      ensures sent == old(sent) + RenderPlain(DirectiveOf(c)) && n == |RenderPlain(DirectiveOf(c))|
    {
      Putc('%');
      n := 1;
      if c != '%' {
        Putc(c);
        n := 2;
      }
    }

    /** The body of vprintf's loop: sends one directive and leaves the pointer behind it. */
    method PutDirective(format: string, ptr: nat, args: seq<Arg>, arg: nat) returns (end: nat, n: nat, taken: nat)
      requires ptr < |format| && FirstDirective(format[ptr..]).Some?
      requires var d := FirstDirective(format[ptr..]).value.0; TakesArg(d) ==> arg < |args| && Fits(d, args[arg])
      modifies `sent
      ensures var (d, len) := FirstDirective(format[ptr..]).value;
              && sent == old(sent) + Piece(d, args, arg) && n == |Piece(d, args, arg)|
              && end == ptr + len && taken == if TakesArg(d) then 1 else 0
    {
      end := ptr;
      if format[end] != '%' {
        n := PutLiteral(format[end]);
        taken := 0;
      } else {
        end := end + 1;
        var long := format[end] == 'l';
        if long {
          end := end + 1;
        }
        n, taken := PutConversion(long, format[end], FirstDirective(format[ptr..]).value.0, args, arg);
      }
      end := end + 1;
    }

    /**
     * With a console set, exactly the rendering of the format is sent, and its length returned; without one,
     * nothing and 0. The format's directives must not run into its terminator, and the arguments must fit them.
     */
    method Vprintf(format: string, args: seq<Arg>) returns (printed: nat)
      requires NUL !in format
      requires Ready(format, args)
      modifies `sent
      ensures var r := Output(format, args);
              if hasPutc then sent == old(sent) + r && printed == |r| else sent == old(sent) && printed == 0
    {
      if !hasPutc {
        return 0;
      }
      ghost var all := Output(format, args);
      assert format[0..] == format && args[0..] == args;
      ghost var done: string := [];
      var ptr: nat, arg: nat := 0, 0;
      printed := 0;
      while ptr < |format|
        invariant ptr <= |format| && arg <= |args|
        invariant Ready(format[ptr..], args[arg..])
        invariant sent == old(sent) + done && printed == |done|
        invariant all == done + Output(format[ptr..], args[arg..])
        decreases |format| - ptr
      {
        ghost var piece, rest := Advance(format, ptr, args, arg);
        var end, n, taken := PutDirective(format, ptr, args, arg);
        ptr := end;
        arg := arg + taken;
        Associate(done, piece, rest);
        Associate(old(sent), done, piece);
        printed := printed + n;
        done := done + piece;
      }
      assert format[ptr..] == [];
    }
  }

  /** The directives end before the terminator and the arguments fit them. */
  predicate Ready(f: string, args: seq<Arg>)
  {
    Parse(f).Some? && Matches(Parse(f).value, args)
  }

  function Output(f: string, args: seq<Arg>): string
    requires Ready(f, args)
  {
    Render(Parse(f).value, args)
  }

  /** One turn of the loop: the directive at `ptr` and the rest of the format. */
  lemma Advance(format: string, ptr: nat, args: seq<Arg>, arg: nat) returns (piece: string, rest: string)
    requires ptr < |format| && arg <= |args| && Ready(format[ptr..], args[arg..])
    ensures FirstDirective(format[ptr..]).Some?
    ensures var (d, len) := FirstDirective(format[ptr..]).value;
            var taken := if TakesArg(d) then 1 else 0;
            && (TakesArg(d) ==> arg < |args| && Fits(d, args[arg]))
            && piece == Piece(d, args, arg)
            && ptr + len <= |format| && arg + taken <= |args|
            && Ready(format[ptr + len..], args[arg + taken..])
            && rest == Output(format[ptr + len..], args[arg + taken..])
            && Output(format[ptr..], args[arg..]) == piece + rest
  {
    var f, a := format[ptr..], args[arg..];
    FrontOf(f, a);
    var (d, len) := FirstDirective(f).value;
    assert f[len..] == format[ptr + len..];
    assert TakesArg(d) ==> a[0] == args[arg] && a[1..] == args[arg + 1..];
    assert a[0..] == a;
    piece, rest := Piece(d, args, arg), Output(f[len..], a[if TakesArg(d) then 1 else 0..]);
  }

  /** The rendering of a format is that of its first directive and then of the rest. */
  lemma FrontOf(f: string, args: seq<Arg>)
    requires f != [] && Ready(f, args)
    ensures FirstDirective(f).Some?
    ensures var (d, len) := FirstDirective(f).value;
            var taken := if TakesArg(d) then 1 else 0;
            && (TakesArg(d) ==> 0 < |args| && Fits(d, args[0]))
            && Ready(f[len..], args[taken..])
            && Output(f, args) == Piece(d, args, 0) + Output(f[len..], args[taken..])
  {
    var (d, len) := FirstDirective(f).value;
    assert Parse(f).value[1..] == Parse(f[len..]).value;
    assert args[0..] == args;
  }

  // ----- what each directive prints -----------------------------------------------

  /** A directive that takes an argument, at the front of a format. */
  lemma FrontArg(front: string, d: Directive, f: string, a: Arg, args: seq<Arg>)
    requires front != [] && Ready(f, args)
    requires FirstDirective(front + f) == Some((d, |front|)) && TakesArg(d) && Fits(d, a)
    ensures Ready(front + f, [a] + args)
    ensures Output(front + f, [a] + args) == RenderArg(d, a) + Output(f, args)
  {
    var g := front + f;
    assert g[|front|..] == f;
    assert Parse(g).value == [d] + Parse(f).value && Parse(g).value[1..] == Parse(f).value;
    assert ([a] + args)[1..] == args;
  }

  /** A directive that takes none. */
  lemma FrontPlain(front: string, d: Directive, f: string, args: seq<Arg>)
    requires front != [] && Ready(f, args)
    requires FirstDirective(front + f) == Some((d, |front|)) && !TakesArg(d)
    ensures Ready(front + f, args)
    ensures Output(front + f, args) == RenderPlain(d) + Output(f, args)
  {
    var g := front + f;
    assert g[|front|..] == f;
    assert Parse(g).value == [d] + Parse(f).value && Parse(g).value[1..] == Parse(f).value;
  }

  /** %u prints its argument in decimal. */
  lemma PrintsUnsigned(f: string, u: nat, args: seq<Arg>)
    requires u < 0x1_0000_0000_0000_0000 && Ready(f, args)
    ensures Ready("%u" + f, [Unsigned(u)] + args)
    ensures Output("%u" + f, [Unsigned(u)] + args) == Numeral(u, 10) + Output(f, args)
  {
    FrontArg("%u", UnsignedDecimal, f, Unsigned(u), args);
    NoSign(UnsignedDecimal, Unsigned(u));
  }

  /** %d prints its argument in decimal, with a minus sign if it is negative. */
  lemma PrintsDecimal(f: string, i: int, args: seq<Arg>)
    requires -0x8000_0000_0000_0000 < i < 0x8000_0000_0000_0000 && Ready(f, args)
    ensures Ready("%d" + f, [Signed(i)] + args)
    ensures Output("%d" + f, [Signed(i)] + args)
         == (if i < 0 then "-" + Numeral(-i, 10) else Numeral(i, 10)) + Output(f, args)
  {
    FrontArg("%d", Decimal, f, Signed(i), args);
    assert i >= 0 ==> "" + Numeral(i, 10) == Numeral(i, 10);
  }

  /** The 64 bits of an integer are its value modulo 2^64. */
  lemma WordIs(a: Arg)
    requires Fits(Hex(false), a)
    ensures a.Unsigned? ==> Word(a) == a.u
    ensures a.Signed? ==> Word(a) == a.i % 0x1_0000_0000_0000_0000
  {
  }

  /** %x prints its argument in hexadecimal, a signed one modulo 2^64. */
  lemma PrintsHex(f: string, a: Arg, args: seq<Arg>)
    requires (a.Unsigned? && a.u < 0x1_0000_0000_0000_0000)
          || (a.Signed? && -0x8000_0000_0000_0000 <= a.i < 0x8000_0000_0000_0000)
    requires Ready(f, args)
    ensures Ready("%x" + f, [a] + args)
    ensures Output("%x" + f, [a] + args)
         == Numeral(if a.Unsigned? then a.u else a.i % 0x1_0000_0000_0000_0000, 16) + Output(f, args)
  {
    FrontArg("%x", Hex(false), f, a, args);
    NoSign(Hex(false), a);
    WordIs(a);
  }

  /** %p prints 0x before the hexadecimal digits. */
  lemma PrintsPointer(f: string, u: nat, args: seq<Arg>)
    requires u < 0x1_0000_0000_0000_0000 && Ready(f, args)
    ensures Ready("%p" + f, [Unsigned(u)] + args)
    ensures Output("%p" + f, [Unsigned(u)] + args) == "0x" + Numeral(u, 16) + Output(f, args)
  {
    FrontArg("%p", Hex(true), f, Unsigned(u), args);
  }

  /** %c prints its argument. */
  lemma PrintsChar(f: string, c: char, args: seq<Arg>)
    requires Ready(f, args)
    ensures Ready("%c" + f, [Character(c)] + args)
    ensures Output("%c" + f, [Character(c)] + args) == [c] + Output(f, args)
  {
    FrontArg("%c", Char, f, Character(c), args);
    NoSign(Char, Character(c));
  }

  /** %s prints a C string, and (null) for a null pointer. */
  lemma PrintsText(f: string, s: Option<string>, args: seq<Arg>)
    requires Ready(f, args) && (s.Some? ==> '\0' !in s.value)
    ensures Ready("%s" + f, [Text(s)] + args)
    ensures Output("%s" + f, [Text(s)] + args) == (if s.Some? then s.value else "(null)") + Output(f, args)
  {
    FrontArg("%s", Str, f, Text(s), args);
    NoSign(Str, Text(s));
  }

  /** A percent sign before any other character is printed with it, but %% prints one percent sign. */
  lemma PrintsPercent(f: string, c: char, args: seq<Arg>)
    requires c !in "lxpcsdu" && Ready(f, args)
    ensures Ready(['%', c] + f, args)
    ensures Output(['%', c] + f, args) == (if c == '%' then "%" else ['%', c]) + Output(f, args)
  {
    assert c != 'l' && c != 'x' && c != 'p' && c != 'c' && c != 's' && c != 'd' && c != 'u' by {
      var s := "lxpcsdu";
      assert s[0] == 'l' && s[1] == 'x' && s[2] == 'p' && s[3] == 'c' && s[4] == 's' && s[5] == 'd' && s[6] == 'u';
    }
    FrontPlain(['%', c], DirectiveOf(c), f, args);
  }

  /** Any other character is printed as it is, a newline with a carriage return before it. */
  lemma PrintsPlain(f: string, c: char, args: seq<Arg>)
    requires c != '%' && Ready(f, args)
    ensures Ready([c] + f, args)
    ensures Output([c] + f, args) == (if c == '\n' then ['\r', '\n'] else [c]) + Output(f, args)
  {
    FrontPlain([c], Literal(c), f, args);
  }

  /** Nothing is printed for nothing. */
  lemma PrintsNothing()
    ensures Ready("", []) && Output("", []) == ""
  {
  }

  /** A directive that starts with l prints hexadecimal and swallows one more character, whichever that is. */
  lemma LongIsAlwaysHex(c: char, f: string, a: Arg, args: seq<Arg>)
    requires Fits(Hex(false), a) && Ready(f, args)
    ensures Ready(['%', 'l', c] + f, [a] + args)
    ensures Output(['%', 'l', c] + f, [a] + args)
         == (if c == 'p' then "0x" else "") + Numeral(Word(a), 16) + Output(f, args)
  {
    FrontArg(['%', 'l', c], Hex(c == 'p'), f, a, args);
  }

  /** An integer argument in decimal, as %lu and %ld promise it elsewhere. */
  function InDecimal(a: Arg): string
    requires Fits(Hex(false), a)
  {
    match a
    case Unsigned(u) => Numeral(u, 10)
    case Signed(i) => if i < 0 then "-" + Numeral(-i, 10) else Numeral(i, 10)
  }

  /** %lu of an unsigned and %ld of a signed number print it in decimal exactly when it is a single digit. */
  lemma LongIsDecimalExactly(f: string, a: Arg, args: seq<Arg>)
    requires Fits(Hex(false), a) && Ready(f, args)
    ensures var format := ['%', 'l', if a.Unsigned? then 'u' else 'd'] + f;
            && Ready(format, [a] + args)
            && (Output(format, [a] + args) == InDecimal(a) + Output(f, args) <==> SingleDigit(a))
  {
    LongIsAlwaysHex(if a.Unsigned? then 'u' else 'd', f, a, args);
    HexIsDecimalExactly(a);
    SameFront(Numeral(Word(a), 16), InDecimal(a), Output(f, args));
    assert "" + Numeral(Word(a), 16) == Numeral(Word(a), 16);
  }

  predicate SingleDigit(a: Arg)
  {
    match a
    case Unsigned(u) => u < 10
    case Signed(i) => 0 <= i < 10
    case _ => false
  }

  lemma HexIsDecimalExactly(a: Arg)
    requires Fits(Hex(false), a)
    ensures Numeral(Word(a), 16) == InDecimal(a) <==> SingleDigit(a)
  {
    if a.Signed? && a.i < 0 {
      LowerCase(Word(a), 16);
      assert Numeral(Word(a), 16)[0] in Numeral(Word(a), 16);
    } else {
      SameNumeralExactly(Word(a));
    }
  }

  lemma SameFront(a: string, b: string, rest: string)
    ensures a + rest == b + rest <==> a == b
  {
    if a + rest == b + rest {
      assert (a + rest)[..|a|] == a && (b + rest)[..|b|] == b;
    }
  }

  /** Ten is the first number %lu gets wrong. */
  lemma TenPrintsAsA()
    ensures Ready("%lu", [Unsigned(10)]) && Output("%lu", [Unsigned(10)]) == "a" != Numeral(10, 10)
  {
    LongIsAlwaysHex('u', "", Unsigned(10), []);
    LongIsDecimalExactly("", Unsigned(10), []);
    assert ['%', 'l', 'u'] + "" == "%lu" && [Unsigned(10)] + [] == [Unsigned(10)];
    assert Quo(10, 16) == 0 && Rem(10, 16) == 10;
    assert Numeral(10, 16) == "a";
  }

  /** A printed pointer parses back to itself in base 16 and with the base detected, the prefix skipped. */
  lemma PointerReadsBack(u: nat, base: int, s: string, res: nat, end: nat)
    requires u < TWO_64 && (base == 0 || base == 16)
    requires Shows(s, RenderArg(Hex(true), Unsigned(u))) && Parses(s, base, res, end)
    ensures res == u && end == 2 + |Numeral(u, 16)|
  {
    NumeralSpells(u, 16);
    PrefixedReadsBack(Numeral(u, 16), u, base, s, res, end);
  }

  lemma PrefixedReadsBack(t: string, n: int, base: int, s: string, res: nat, end: nat)
    requires AllDigits(t, 16) && 0 <= n == Spelled(t, 16) < TWO_64 && (base == 0 || base == 16)
    requires Shows(s, "0x" + t) && Parses(s, base, res, end)
    ensures res == n && end == 2 + |t|
  {
    PrefixedText(t, s);
    PrefixedDigits(t, n, base, s, res, end);
  }

  /** The buffer holds the text and its terminator. */
  predicate Shows(s: string, text: string)
  {
    |s| > |text| && s[..|text|] == text && s[|text|] == NUL
  }

  lemma PrefixedText(t: string, s: string)
    requires Shows(s, "0x" + t)
    ensures |s| > 2 + |t| && s[0] == '0' && s[1] == 'x' && s[2..2 + |t|] == t && s[2 + |t|] == NUL
  {
    var p := "0x" + t;
    assert s[..|p|][0] == '0' && s[..|p|][1] == 'x';
    assert s[..|p|][2..] == t;
  }
}
