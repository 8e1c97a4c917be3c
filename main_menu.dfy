/**
 * The console menu the game starts with, and the frame loop after it: the
 * choice of game mode, the server address typed as a dotted quad and parsed
 * into four numbers, and the frames too long to simulate.
 *
 * What the player types is the parameter input; the frame times the window
 * timer measures are the parameter dts.
 */
module Console {
  import opened Common

  datatype PushdownResult = NoChange | Pop | Push

  // ------------------------------------------------- decimal text

  predicate Digit(ch: char) { '0' <= ch <= '9' }

  predicate AllDigits(s: string) { forall i :: 0 <= i < |s| ==> Digit(s[i]) }

  function DigitValue(ch: char): int { ch as int - '0' as int }

  function DigitChar(n: int): char
    requires 0 <= n < 10
  {
    ('0' as int + n) as char
  }

  /** 10 to the power n. */
  function Pow10(n: nat): nat
  {
    if n == 0 then 1 else 10 * Pow10(n - 1)
  }

  /**
   * The number a string of decimal digits spells, leading zeros allowed:
   * what std::stoi gives for it. n digits spell a number below 10^n.
   */
  function Value(s: string): (r: int)
    ensures AllDigits(s) ==> 0 <= r < Pow10(|s|)
  {
    if s == [] then 0
    else
      assert AllDigits(s) ==> AllDigits(s[..|s| - 1]);
      Value(s[..|s| - 1]) * 10 + DigitValue(s[|s| - 1])
  }

  /** The decimal digits of n, with no leading zero (std::to_string). */
  function Digits(n: nat): (s: string)
    ensures 1 <= |s| && AllDigits(s) && Value(s) == n
    ensures n < 10 ==> |s| == 1
    ensures n < 100 ==> |s| <= 2
    ensures n < 1000 ==> |s| <= 3
    decreases n
  {
    if n < 10 then [DigitChar(n)]
    else
      var p := Digits(n / 10);
      var s := p + [DigitChar(n % 10)];
      assert s[..|s| - 1] == p;
      s
  }

  /** std::to_string of an int: a minus sign before the digits of a negative number. */
  function IntToString(n: int): (s: string)
    ensures NoDot(s)
    ensures n >= 0 ==> s == Digits(n)
  {
    if n < 0 then "-" + Digits(-n) else Digits(n)
  }

  /** The four numbers of an address joined by dots, in order: split at the dots, it gives back each number's text. */
  function IPAsString(a: int, b: int, c: int, d: int): (r: string)
    ensures Fields(r) == [IntToString(a), IntToString(b), IntToString(c), IntToString(d)]
  {
    FieldsOfFour(IntToString(a), IntToString(b), IntToString(c), IntToString(d));
    IntToString(a) + "." + IntToString(b) + "." + IntToString(c) + "." + IntToString(d)
  }

  // ------------------------------------------------- the address pattern

  /**
   * One field of the address pattern, branch by branch:
   * 25[0-5] | 2[0-4][0-9] | [01]?[0-9][0-9]?
   * Whatever it accepts is one to three digits.
   */
  predicate OctetPattern(s: string)
    ensures OctetPattern(s) ==> 1 <= |s| <= 3 && AllDigits(s)
  {
    (|s| == 3 && s[0] == '2' && s[1] == '5' && '0' <= s[2] <= '5')
    || (|s| == 3 && s[0] == '2' && '0' <= s[1] <= '4' && Digit(s[2]))
    || (|s| == 1 && Digit(s[0]))
    || (|s| == 2 && (s[0] == '0' || s[0] == '1') && Digit(s[1]))
    || (|s| == 2 && Digit(s[0]) && Digit(s[1]))
    || (|s| == 3 && (s[0] == '0' || s[0] == '1') && Digit(s[1]) && Digit(s[2]))
  }

  /** One to three digits spelling at most 255, leading zeros allowed. */
  predicate Octet(s: string)
  {
    1 <= |s| <= 3 && AllDigits(s) && Value(s) <= 255
  }

  /** The field pattern accepts exactly the octets. */
  lemma OctetPatternIsOctet(s: string)
    ensures OctetPattern(s) <==> Octet(s)
  {
    if 1 <= |s| <= 3 {
      ValueShort(s);
    }
  }

  /** The value of one, two or three digits, written out. */
  lemma ValueShort(s: string)
    requires 1 <= |s| <= 3
    ensures |s| == 1 ==> Value(s) == DigitValue(s[0])
    ensures |s| == 2 ==> Value(s) == DigitValue(s[0]) * 10 + DigitValue(s[1])
    ensures |s| == 3 ==> Value(s) == DigitValue(s[0]) * 100 + DigitValue(s[1]) * 10 + DigitValue(s[2])
  {
    var p1 := s[..1];
    assert p1[..0] == [];
    assert Value(p1) == DigitValue(s[0]);
    if |s| == 1 {
      assert s == p1;
    } else {
      var p2 := s[..2];
      assert p2[..1] == p1;
      assert Value(p2) == Value(p1) * 10 + DigitValue(s[1]);
      if |s| == 2 {
        assert s == p2;
      } else {
        assert s[..2] == p2;
      }
    }
  }

  /** Where the first ch is, or the length when there is none (std::string::find, npos as the end). */
  function Find(s: string, ch: char): (i: nat)
    ensures i <= |s| && (i < |s| ==> s[i] == ch)
    ensures forall j :: 0 <= j < i ==> s[j] != ch
  {
    if s == [] then 0
    else if s[0] == ch then 0
    else
      var i := 1 + Find(s[1..], ch);
      assert forall j :: 1 <= j < i ==> s[j] == s[1..][j - 1];
      i
  }

  predicate NoDot(s: string) { forall i :: 0 <= i < |s| ==> s[i] != '.' }

  /** The text between the dots, in order. */
  function Fields(s: string): (r: seq<string>)
    ensures |r| >= 1 && forall k :: 0 <= k < |r| ==> NoDot(r[k])
    decreases |s|
  {
    var i := Find(s, '.');
    if i == |s| then [s] else [s[..i]] + Fields(s[i + 1..])
  }

  /** A field followed by a dot splits off first. */
  lemma FieldsDot(x: string, rest: string)
    requires NoDot(x)
    ensures Fields(x + "." + rest) == [x] + Fields(rest)
  {
    var s := x + "." + rest;
    assert s[|x|] == '.';
    var i := Find(s, '.');
    assert i == |x|;
    assert s[..i] == x && s[i + 1..] == rest;
  }

  /** A string without dots is a single field. */
  lemma FieldsNoDot(x: string)
    requires NoDot(x)
    ensures Fields(x) == [x]
  {
  }

  /**
   * The whole address pattern: four fields, each matching the field pattern,
   * separated by dots; that is, four dot-separated octets.
   */
  predicate MatchesIP(input: string)
    ensures MatchesIP(input) <==> |Fields(input)| == 4 && forall k :: 0 <= k < 4 ==> Octet(Fields(input)[k])
  {
    var f := Fields(input);
    if |f| != 4 then false
    else
      OctetPatternIsOctet(f[0]);
      OctetPatternIsOctet(f[1]);
      OctetPatternIsOctet(f[2]);
      OctetPatternIsOctet(f[3]);
      OctetPattern(f[0]) && OctetPattern(f[1]) && OctetPattern(f[2]) && OctetPattern(f[3])
  }

  /** The four numbers of an address that matches the pattern, in order; none otherwise. */
  function ParseIP(input: string): (r: Option4)
    ensures r.Some4? <==> MatchesIP(input)
    ensures r.Some4? ==> 0 <= r.a <= 255 && 0 <= r.b <= 255 && 0 <= r.c <= 255 && 0 <= r.d <= 255
  {
    if MatchesIP(input) then
      var f := Fields(input);
      OctetPatternIsOctet(f[0]);
      OctetPatternIsOctet(f[1]);
      OctetPatternIsOctet(f[2]);
      OctetPatternIsOctet(f[3]);
      Some4(Value(f[0]), Value(f[1]), Value(f[2]), Value(f[3]))
    else None4
  }

  datatype Option4 = None4 | Some4(a: int, b: int, c: int, d: int)

  /** Every address IPAsString writes for four octets parses back to the same four numbers. */
  lemma IPRoundTrip(a: int, b: int, c: int, d: int)
    requires 0 <= a <= 255 && 0 <= b <= 255 && 0 <= c <= 255 && 0 <= d <= 255
    ensures MatchesIP(IPAsString(a, b, c, d))
    ensures ParseIP(IPAsString(a, b, c, d)) == Some4(a, b, c, d)
  {
    var da, db, dc, dd := Digits(a), Digits(b), Digits(c), Digits(d);
    FieldsOfFour(da, db, dc, dd);
    assert IPAsString(a, b, c, d) == da + "." + db + "." + dc + "." + dd;
    OctetPatternIsOctet(da);
    OctetPatternIsOctet(db);
    OctetPatternIsOctet(dc);
    OctetPatternIsOctet(dd);
  }

  /** Three dot-free strings joined by dots split back into the same three. */
  lemma FieldsOfThree(x: string, y: string, z: string)
    requires NoDot(x) && NoDot(y) && NoDot(z)
    ensures Fields(x + "." + (y + "." + z)) == [x, y, z]
  {
    FieldsNoDot(z);
    FieldsDot(y, z);
    FieldsDot(x, y + "." + z);
    PrependTwo(x, y, z);
  }

  /** Four dot-free strings joined by dots split back into the same four. */
  lemma FieldsOfFour(w: string, x: string, y: string, z: string)
    requires NoDot(w) && NoDot(x) && NoDot(y) && NoDot(z)
    ensures Fields(w + "." + x + "." + y + "." + z) == [w, x, y, z]
  {
    var t2 := x + "." + (y + "." + z);
    JoinRegroups(w, x, y, z);
    FieldsOfThree(x, y, z);
    FieldsDot(w, t2);
    PrependThree(w, x, y, z);
  }

  lemma PrependTwo<T>(x: T, y: T, z: T)
    ensures [x] + ([y] + [z]) == [x, y, z]
  {
  }

  lemma PrependThree<T>(w: T, x: T, y: T, z: T)
    ensures [w] + [x, y, z] == [w, x, y, z]
  {
  }

  lemma JoinRegroups(w: string, x: string, y: string, z: string)
    ensures w + "." + x + "." + y + "." + z == w + "." + (x + "." + (y + "." + z))
  {
  }

  // ------------------------------------------------- the screens

  /** The file's globals: the mode chosen and the server address. */
  class Globals {
    var option: int
    var a: int
    var b: int
    var c: int
    var d: int

    /** No mode chosen yet (0), and the server at 127.0.0.1. */
    constructor ()
      ensures option == 0 && a == 127 && b == 0 && c == 0 && d == 1
    {
      option := 0;
      a := 127;
      b := 0;
      c := 0;
      d := 1;
    }
  }

  /** One field of the address: the number before the first dot, and the text after it. */
  method TakeField(rest: string) returns (v: int, after: string)
    requires |Fields(rest)| >= 2
    ensures v == Value(Fields(rest)[0]) && Fields(after) == Fields(rest)[1..]
  {
    var i := Find(rest, '.');
    v := Value(rest[..i]);
    after := rest[i + 1..];
  }

  class EnterIPScreen {
    constructor ()
    {
    }

    /**
     * Reads a server address: one matching the pattern sets the four
     * numbers, field by field, and pops the screen; anything else changes
     * nothing and stays.
     */
    method OnUpdate(dt: real, input: string, g: Globals) returns (r: PushdownResult)
      modifies g
      ensures ParseIP(input).Some4? ==>
                r == Pop && g.a == ParseIP(input).a && g.b == ParseIP(input).b &&
                g.c == ParseIP(input).c && g.d == ParseIP(input).d && g.option == old(g.option)
      ensures ParseIP(input).None4? ==> r == NoChange && unchanged(g)
    {
      if MatchesIP(input) {
        ghost var f := Fields(input);
        var rest := input;
        g.a, rest := TakeField(rest);
        assert Fields(rest) == f[1..];
        g.b, rest := TakeField(rest);
        assert Fields(rest) == f[2..];
        g.c, rest := TakeField(rest);
        assert Fields(rest) == f[3..] && Find(rest, '.') == |rest|;
        assert rest[..Find(rest, '.')] == rest && Fields(rest) == [rest];
        g.d := Value(rest[..Find(rest, '.')]);
        assert g.a == Value(f[0]) && g.b == Value(f[1]) && g.c == Value(f[2]) && g.d == Value(f[3]);
        return Pop;
      }
      return NoChange;
    }
  }

  class IntroScreen {
    /**
     * The main menu: '1', '2', '3' and '5' choose that mode and pop the
     * menu, '4' pushes the address screen, and anything else, including
     * more than one character, changes nothing.
     */
    method OnUpdate(dt: real, input: string, g: Globals) returns (r: PushdownResult, newState: EnterIPScreen?)
      modifies g`option
      ensures |input| == 1 && input[0] in {'1', '2', '3', '5'} ==> r == Pop && newState == null && g.option == DigitValue(input[0])
      ensures |input| == 1 && input[0] == '4' ==> r == Push && newState != null && fresh(newState) && g.option == old(g.option)
      ensures !(|input| == 1 && '1' <= input[0] <= '5') ==> r == NoChange && newState == null && g.option == old(g.option)
    {
      newState := null;
      if |input| == 1 && '1' <= input[0] <= '5' {
        match input[0]
        case '1' =>
          g.option := 1;
          return Pop, null;
        case '2' =>
          g.option := 2;
          return Pop, null;
        case '3' =>
          g.option := 3;
          return Pop, null;
        case '4' =>
          newState := new EnterIPScreen();
          return Push, newState;
        case '5' =>
          g.option := 5;
          return Pop, null;
      }
      return NoChange, null;
    }
  }

  // ------------------------------------------------- the game

  datatype Game = SingleplayerGame | ServerGame | ClientGame(a: int, b: int, c: int, d: int)

  /** The game main starts for the chosen mode: none (the program ends) unless 1, 2 or 3. */
  function StartGame(option: int, a: int, b: int, c: int, d: int): (r: Option<Game>)
    ensures r.None? <==> option !in {1, 2, 3}
    ensures r == Some(ClientGame(a, b, c, d)) <==> option == 3
  {
    if option == 1 then Some(SingleplayerGame)
    else if option == 2 then Some(ServerGame)
    else if option == 3 then Some(ClientGame(a, b, c, d))
    else None
  }

  /** The frame times the game is updated with: every one of at most a second, in order. */
  function Steady(dts: seq<real>): (r: seq<real>)
    ensures forall x :: x in r <==> x in dts && x <= 1.0
    ensures |r| <= |dts|
    ensures (forall i :: 0 <= i < |dts| ==> dts[i] <= 1.0) ==> r == dts
    ensures InOrder(r, dts)
    ensures forall x :: multiset(r)[x] == if x <= 1.0 then multiset(dts)[x] else 0
  {
    if dts == [] then []
    else
      var p := dts[..|dts| - 1];
      assert dts == p + [dts[|dts| - 1]];
      assert multiset(dts) == multiset(p) + multiset{dts[|dts| - 1]};
      assert Steady(p) != [] ==> Steady(p)[|Steady(p)| - 1] in Steady(p);
      assert (Steady(p) + [dts[|dts| - 1]])[..|Steady(p)|] == Steady(p);
      if dts[|dts| - 1] > 1.0 then Steady(p) else Steady(p) + [dts[|dts| - 1]]
  }

  /** The frame loop: a frame longer than a second is skipped before the game sees it; the others update it. */
  method MainLoop(dts: seq<real>) returns (updates: seq<real>)
    ensures updates == Steady(dts)
  {
    updates := [];
    for i := 0 to |dts|
      invariant updates == Steady(dts[..i])
    {
      var dt := dts[i];
      assert dts[..i + 1][..i] == dts[..i];
      assert Steady(dts[..i + 1]) == if dt > 1.0 then Steady(dts[..i]) else Steady(dts[..i]) + [dt];
      if dt > 1.0 {
        continue;
      }
      updates := updates + [dt];
    }
    assert dts[..|dts|] == dts;
  }
}
