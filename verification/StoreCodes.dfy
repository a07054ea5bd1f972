/** Lists of store codes (syncshare/comm.cpp, splitStrToVector). */
module StoreCodes {

  const NUL := '\0'

  /** The character at i, or the terminating NUL. */
  function CharAt(s: string, i: nat): char {
    if i < |s| then s[i] else NUL
  }

  predicate Separator(c: char) {
    c == ',' || c == NUL
  }

  /** The next separator from j on; the terminating NUL is one. */
  function NextSeparator(s: string, j: nat): (k: nat)
    requires j <= |s|
    ensures j <= k <= |s| && Separator(CharAt(s, k))
    ensures forall m :: j <= m < k ==> !Separator(s[m])
    decreases |s| - j
  {
    if Separator(CharAt(s, j)) then j else NextSeparator(s, j + 1)
  }

  /** The codes from position i on: each ends before a separator, and nothing follows the last character. */
  function CodesFrom(s: string, i: nat): seq<string>
    decreases |s| - i
  {
    if i >= |s| then []
    else
      var k := NextSeparator(s, i);
      [s[i..k]] + CodesFrom(s, k + 1)
  }

  function LeadingSpaces(s: string): (i: nat)
    ensures i <= |s|
  {
    if s != "" && s[0] == ' ' then 1 + LeadingSpaces(s[1..]) else 0
  }

  function Codes(s: string): seq<string> {
    CodesFrom(s, LeadingSpaces(s))
  }

  lemma {:induction false} SpacesSkipped(s: string, i: nat)
    requires i <= |s| && forall m :: 0 <= m < i ==> s[m] == ' '
    requires CharAt(s, i) != ' '
    ensures LeadingSpaces(s) == i
  {
    if i > 0 {
      SpacesSkipped(s[1..], i - 1);
    }
  }

  lemma NothingLeft(s: string)
    ensures forall i: nat :: i >= |s| ==> CodesFrom(s, i) == []
  {
  }

  lemma SearchStep(s: string, i: nat, j: nat)
    requires i < |s| && j <= |s| && NextSeparator(s, i) == NextSeparator(s, j)
    ensures if Separator(CharAt(s, j)) then i <= j && CodesFrom(s, i) == [s[i..j]] + CodesFrom(s, j + 1)
            else j < |s| && NextSeparator(s, i) == NextSeparator(s, j + 1)
  {
  }

  method SplitStrToVector(str: string) returns (result: seq<string>)
    ensures result == Codes(str)
  {
    hide CodesFrom, NextSeparator, LeadingSpaces, Separator;
    result := [];
    var i: nat := 0;
    while CharAt(str, i) == ' '
      invariant i <= |str| && forall m :: 0 <= m < i ==> str[m] == ' '
      decreases |str| - i
    {
      i := i + 1;
    }
    SpacesSkipped(str, i);
    var j: nat := i;
    NothingLeft(str);
    while i < |str|
      invariant i <= j && (i < |str| ==> j <= |str| && NextSeparator(str, i) == NextSeparator(str, j))
      invariant Codes(str) == result + CodesFrom(str, i)
      decreases |str| - i, |str| - j
    {
      SearchStep(str, i, j);
      if Separator(CharAt(str, j)) {
        result := result + [str[i..j]];
        j := j + 1;
        i := j;
      } else {
        j := j + 1;
      }
    }
  }

  // ---- writing a list and reading it back ------------------------------------------------

  /** A code that a list can carry. */
  predicate Plain(code: string) {
    forall c <- code :: c != ',' && c != '\0'
  }

  function Join(codes: seq<string>): string {
    if codes == [] then "" else if |codes| == 1 then codes[0] else codes[0] + "," + Join(codes[1..])
  }

  lemma {:induction false} NextSeparatorAt(s: string, j: nat, k: nat)
    requires j <= k <= |s| && Separator(CharAt(s, k)) && forall m :: j <= m < k ==> !Separator(s[m])
    ensures NextSeparator(s, j) == k
    decreases k - j
  {
    if j < k {
      NextSeparatorAt(s, j + 1, k);
    }
  }

  lemma PlainBetween(s: string, front: string, code: string, rest: string)
    requires s == front + code + rest && Plain(code)
    ensures forall m :: |front| <= m < |front| + |code| ==> !Separator(s[m])
  {
    forall m | |front| <= m < |front| + |code| ensures !Separator(s[m]) {
      assert s[m] == code[m - |front|] && code[m - |front|] in code;
    }
  }

  lemma NextCode(front: string, code: string, rest: string)
    requires Plain(code) && (rest == "" || rest[0] == ',')
    ensures var s := front + code + rest;
            NextSeparator(s, |front|) == |front| + |code| && s[|front|..|front| + |code|] == code
  {
    var s := front + code + rest;
    PlainBetween(s, front, code, rest);
    NextSeparatorAt(s, |front|, |front| + |code|);
  }

  lemma FirstCode(front: string, code: string, rest: string)
    requires Plain(code) && (rest == "" ==> code != "") && (rest != "" ==> rest[0] == ',')
    ensures var s := front + code + rest;
            CodesFrom(s, |front|) == [code] + CodesFrom(s, |front| + |code| + 1)
  {
    hide Plain;
    NextCode(front, code, rest);
  }

  /** The codes that are read when all are plain: an empty last one is not. */
  function Found(codes: seq<string>): seq<string>
    requires codes != []
  {
    if codes[|codes| - 1] == "" then codes[..|codes| - 1] else codes
  }

  lemma {:induction false} CodesOfJoin(front: string, codes: seq<string>)
    requires codes != [] && forall c <- codes :: Plain(c)
    ensures CodesFrom(front + Join(codes), |front|) == Found(codes)
    decreases codes
  {
    hide *;
    JoinStep(codes);
    if codes == [""] {
      assert front + Join(codes) == front;
      NothingLeft(front);
      FoundStep(codes);
    } else if |codes| == 1 {
      FirstCode(front, codes[0], "");
      NothingLeft(front + codes[0] + "");
      assert front + codes[0] + "" == front + Join(codes);
      FoundStep(codes);
    } else {
      var next := front + codes[0] + ",";
      assert front + Join(codes) == next + Join(codes[1..]) == front + codes[0] + ("," + Join(codes[1..]));
      FirstCode(front, codes[0], "," + Join(codes[1..]));
      CodesOfJoin(next, codes[1..]);
      FoundStep(codes);
    }
  }

  lemma FoundStep(codes: seq<string>)
    requires codes != []
    ensures codes == [""] ==> Found(codes) == []
    ensures |codes| == 1 && codes[0] != "" ==> Found(codes) == [codes[0]] + []
    ensures |codes| > 1 ==> Found(codes) == [codes[0]] + Found(codes[1..])
  {
  }

  lemma JoinStep(codes: seq<string>)
    requires codes != []
    ensures Join(codes) == if |codes| == 1 then codes[0] else codes[0] + "," + Join(codes[1..])
  {
  }

  lemma {:induction false} CodesArePlain(s: string, i: nat)
    ensures forall c <- CodesFrom(s, i) :: Plain(c)
    decreases |s| - i
  {
    if i < |s| {
      CodesArePlain(s, NextSeparator(s, i) + 1);
    }
  }

  /** What is read does not start with a space. */
  lemma SpacesAreGone(s: string)
    ensures CharAt(s, LeadingSpaces(s)) != ' '
    ensures Codes(s) != [] ==> CharAt(Codes(s)[0], 0) != ' '
  {
    NotASpace(s);
  }

  lemma {:induction false} NotASpace(s: string)
    ensures CharAt(s, LeadingSpaces(s)) != ' '
  {
    if s != "" && s[0] == ' ' {
      NotASpace(s[1..]);
    }
  }

  /** A list that can be carried: codes without commas and NULs, of which the last is not empty and the first
      does not start with a space. */
  predicate Carried(codes: seq<string>) {
    codes != [] ==>
      codes[|codes| - 1] != "" && CharAt(codes[0], 0) != ' ' && forall c <- codes :: Plain(c)
  }

  /** A list of codes is read back as written exactly when it can be carried. */
  lemma JoinRoundTrip(codes: seq<string>)
    ensures Codes(Join(codes)) == codes <==> Carried(codes)
  {
    if codes != [] {
      CodesArePlain(Join(codes), LeadingSpaces(Join(codes)));
      SpacesAreGone(Join(codes));
      if CharAt(codes[0], 0) != ' ' && forall c <- codes :: Plain(c) {
        CodesOfJoin("", codes);
        assert "" + Join(codes) == Join(codes);
        NoSpace(codes);
        SpacesSkipped(Join(codes), 0);
      }
    }
  }

  lemma NoSpace(codes: seq<string>)
    requires codes != [] && CharAt(codes[0], 0) != ' '
    ensures CharAt(Join(codes), 0) != ' '
  {
  }

  // ---- every string, piece by piece -------------------------------------------------------

  function Blanks(n: nat): string {
    if n == 0 then "" else " " + Blanks(n - 1)
  }

  /** Each piece with the separator behind it. */
  function Pieces(codes: seq<string>, ends: string): string
    requires |ends| == |codes|
  {
    if codes == [] then "" else codes[0] + [ends[0]] + Pieces(codes[1..], ends[1..])
  }

  /** Pieces without commas and NULs, each ended by one of them, and a last piece that is not ended. */
  predicate Woven(codes: seq<string>, ends: string, last: string) {
    && |ends| == |codes| && Plain(last)
    && (forall c <- codes :: Plain(c))
    && (forall e <- ends :: e == ',' || e == '\0')
  }

  lemma NextPiece(front: string, code: string, end: char, rest: string)
    requires Plain(code) && (end == ',' || end == '\0')
    ensures var s := front + code + [end] + rest;
            CodesFrom(s, |front|) == [code] + CodesFrom(s, |front + code + [end]|)
  {
    var s := front + code + [end] + rest;
    assert s == front + code + ([end] + rest) && s[|front| + |code|] == end;
    PlainBetween(s, front, code, [end] + rest);
    NextSeparatorAt(s, |front|, |front| + |code|);
    assert s[|front|..|front| + |code|] == code;
  }

  lemma {:induction false} PiecesRead(front: string, codes: seq<string>, ends: string, last: string)
    requires Woven(codes, ends, last)
    ensures CodesFrom(front + Pieces(codes, ends) + last, |front|) == codes + if last == "" then [] else [last]
    decreases codes
  {
    hide CodesFrom, Plain;
    if codes == [] {
      assert front + Pieces(codes, ends) + last == front + last + "";
      NothingLeft(front + last + "");
      if last != "" {
        FirstCode(front, last, "");
      }
    } else {
      var next := front + codes[0] + [ends[0]];
      var rest := Pieces(codes[1..], ends[1..]) + last;
      assert codes[0] in codes && ends[0] in ends;
      assert forall c <- codes[1..] :: c in codes;
      assert forall e <- ends[1..] :: e in ends;
      assert front + Pieces(codes, ends) + last == next + rest == next + Pieces(codes[1..], ends[1..]) + last;
      NextPiece(front, codes[0], ends[0], rest);
      PiecesRead(next, codes[1..], ends[1..], last);
      assert codes == [codes[0]] + codes[1..];
    }
  }

  lemma {:induction false} BlanksAreSpaces(n: nat)
    ensures |Blanks(n)| == n && forall m :: 0 <= m < n ==> Blanks(n)[m] == ' '
  {
    if n > 0 {
      BlanksAreSpaces(n - 1);
    }
  }

  /** Behind its leading spaces a list is read piece by piece; only an empty last piece is not read. */
  lemma WovenRoundTrip(blanks: nat, codes: seq<string>, ends: string, last: string)
    requires Woven(codes, ends, last) && CharAt(Pieces(codes, ends) + last, 0) != ' '
    ensures Codes(Blanks(blanks) + Pieces(codes, ends) + last) == codes + if last == "" then [] else [last]
  {
    var front, rest := Blanks(blanks), Pieces(codes, ends) + last;
    assert front + Pieces(codes, ends) + last == front + rest;
    BlanksAreSpaces(blanks);
    assert CharAt(front + rest, blanks) == CharAt(rest, 0);
    SpacesSkipped(front + rest, blanks);
    PiecesRead(front, codes, ends, last);
  }

  /** And every string is made so. */
  lemma EveryListIsWoven(s: string) returns (blanks: nat, codes: seq<string>, ends: string, last: string)
    ensures Woven(codes, ends, last) && CharAt(Pieces(codes, ends) + last, 0) != ' '
    ensures s == Blanks(blanks) + Pieces(codes, ends) + last
  {
    hide Plain;
    if s != "" && s[0] == ' ' {
      blanks, codes, ends, last := EveryListIsWoven(s[1..]);
      blanks := blanks + 1;
      assert s == " " + s[1..];
    } else {
      blanks := 0;
      codes, ends, last := CutUp(s);
      assert Blanks(0) + Pieces(codes, ends) + last == Pieces(codes, ends) + last;
    }
  }

  lemma CutUp(s: string) returns (codes: seq<string>, ends: string, last: string)
    ensures Woven(codes, ends, last) && s == Pieces(codes, ends) + last
    decreases |s|
  {
    var k := NextSeparator(s, 0);
    if k == |s| {
      codes, ends, last := [], "", s;
    } else {
      var codes', ends';
      codes', ends', last := CutUp(s[k + 1..]);
      codes, ends := [s[..k]] + codes', [s[k]] + ends';
      assert s == s[..k] + [s[k]] + s[k + 1..];
      assert codes[1..] == codes' && ends[1..] == ends';
    }
  }
}
