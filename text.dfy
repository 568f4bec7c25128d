/** The three string operations of Python's standard library that the
    matrix-file reader relies on: str.strip() with no argument,
    str.split(sep) with a one-character separator and int(s) in base 10,
    together with str(n) for an integer, which the display code uses. */
module Text {
  import opened Outcomes

  /** The characters for which Python's str.isspace() holds: what
      str.strip() removes from both ends. */
  predicate IsSpace(c: char)
  {
    || '\t' <= c <= '\r'            // \t \n \v \f \r
    || '\U{1C}' <= c <= '\U{1F}'    // file, group, record and unit separators
    || c == ' ' || c == '\U{85}' || c == '\U{A0}' || c == '\U{1680}'
    || '\U{2000}' <= c <= '\U{200A}'
    || c == '\U{2028}' || c == '\U{2029}' || c == '\U{202F}' || c == '\U{205F}'
    || c == '\U{3000}'
  }

  /** Which white space a trim removes. str.strip() removes every
      isspace() character. int() first turns each non-ASCII white-space
      character into ' ' and then skips only ' ' and '\t' .. '\r', so the
      four ASCII separators U+001C .. U+001F stay and make it fail. */
  datatype Blanks = StripBlanks | IntBlanks

  predicate IsBlank(w: Blanks, c: char)
  {
    IsSpace(c) && (w.IntBlanks? ==> !('\U{1C}' <= c <= '\U{1F}'))
  }

  predicate AllBlank(w: Blanks, s: string)
  {
    forall i | 0 <= i < |s| :: IsBlank(w, s[i])
  }

  /** No white space at either end. */
  predicate Trimmed(s: string)
  {
    s == [] || (!IsSpace(s[0]) && !IsSpace(s[|s| - 1]))
  }

  // ---------------------------------------------------------------------
  // Trimming: str.strip(), and the trim inside int()
  // ---------------------------------------------------------------------

  /** s without its leading blanks. */
  function TrimStart(w: Blanks, s: string): string
    decreases |s|
  {
    if |s| > 0 && IsBlank(w, s[0]) then TrimStart(w, s[1..]) else s
  }

  /** s without its trailing blanks. */
  function TrimEnd(w: Blanks, s: string): string
    decreases |s|
  {
    if |s| > 0 && IsBlank(w, s[|s| - 1]) then TrimEnd(w, s[..|s| - 1]) else s
  }

  /** Python's s.strip(): s without white space at either end. */
  function Strip(s: string): string
  {
    TrimEnd(StripBlanks, TrimStart(StripBlanks, s))
  }

  /** What int() skips around its digits. */
  function IntTrim(s: string): string
  {
    TrimEnd(IntBlanks, TrimStart(IntBlanks, s))
  }

  /** TrimStart removes a run of blanks from the front of s, and all of
      it: what remains is a suffix of s that does not start with a
      blank. */
  lemma {:induction false} TrimStartRemovesLeadingSpace(w: Blanks, s: string)
    ensures |TrimStart(w, s)| <= |s| && TrimStart(w, s) == s[|s| - |TrimStart(w, s)|..]
    ensures AllBlank(w, s[..|s| - |TrimStart(w, s)|])
    ensures TrimStart(w, s) == [] || !IsBlank(w, TrimStart(w, s)[0])
    decreases |s|
  {
    if |s| > 0 && IsBlank(w, s[0]) {
      TrimStartRemovesLeadingSpace(w, s[1..]);
      var t := TrimStart(w, s);
      assert s[..|s| - |t|] == [s[0]] + s[1..][..|s| - 1 - |t|];
    }
  }

  /** TrimEnd removes a run of blanks from the back of s, and all of it:
      what remains is a prefix of s that does not end with a blank. */
  lemma {:induction false} TrimEndRemovesTrailingSpace(w: Blanks, s: string)
    ensures |TrimEnd(w, s)| <= |s| && TrimEnd(w, s) == s[..|TrimEnd(w, s)|]
    ensures AllBlank(w, s[|TrimEnd(w, s)|..])
    ensures TrimEnd(w, s) == [] || !IsBlank(w, TrimEnd(w, s)[|TrimEnd(w, s)| - 1])
    decreases |s|
  {
    if |s| > 0 && IsBlank(w, s[|s| - 1]) {
      TrimEndRemovesTrailingSpace(w, s[..|s| - 1]);
      var t := TrimEnd(w, s);
      assert s[|t|..] == s[..|s| - 1][|t|..] + [s[|s| - 1]];
    }
  }

  /** What Strip returns has no white space at either end. */
  lemma StripIsTrimmed(s: string)
    ensures Trimmed(Strip(s)) && |Strip(s)| <= |s|
  {
    TrimStartRemovesLeadingSpace(StripBlanks, s);
    TrimEndRemovesTrailingSpace(StripBlanks, TrimStart(StripBlanks, s));
    var t := TrimStart(StripBlanks, s);
    var u := TrimEnd(StripBlanks, t);
    if u != [] {
      assert u[0] == t[0];
    }
  }

  lemma {:induction false} TrimStartPadded(w: Blanks, pre: string, t: string)
    requires AllBlank(w, pre) && (t == [] || !IsBlank(w, t[0]))
    ensures TrimStart(w, pre + t) == t
    decreases |pre|
  {
    if pre != [] {
      assert (pre + t)[1..] == pre[1..] + t;
      TrimStartPadded(w, pre[1..], t);
    }
  }

  lemma {:induction false} TrimEndPadded(w: Blanks, t: string, post: string)
    requires AllBlank(w, post) && (t == [] || !IsBlank(w, t[|t| - 1]))
    ensures TrimEnd(w, t + post) == t
    decreases |post|
  {
    if post != [] {
      assert (t + post)[..|t + post| - 1] == t + post[..|post| - 1];
      TrimEndPadded(w, t, post[..|post| - 1]);
    } else {
      assert t + post == t;
    }
  }

  /** Trimming removes exactly the blanks around a string with no white
      space at its ends. */
  lemma TrimPadded(w: Blanks, pre: string, t: string, post: string)
    requires AllBlank(w, pre) && AllBlank(w, post) && Trimmed(t)
    ensures TrimEnd(w, TrimStart(w, pre + t + post)) == t
  {
    if t == [] {
      assert pre + t + post == pre + post;
      TrimStartPadded(w, pre + post, []);
      assert TrimStart(w, pre + post + []) == [];
      assert pre + post + [] == pre + post;
    } else {
      assert pre + t + post == pre + (t + post);
      TrimStartPadded(w, pre, t + post);
      TrimEndPadded(w, t, post);
    }
  }

  /** Strip removes exactly the white space around a trimmed string. */
  lemma StripPadded(pre: string, t: string, post: string)
    requires AllBlank(StripBlanks, pre) && AllBlank(StripBlanks, post) && Trimmed(t)
    ensures Strip(pre + t + post) == t
  {
    TrimPadded(StripBlanks, pre, t, post);
  }

  /** Strip leaves a string without white space at its ends as it is. */
  lemma StripTrimmed(t: string)
    requires Trimmed(t)
    ensures Strip(t) == t
  {
    StripPadded([], t, []);
    assert [] + t + [] == t;
  }

  // ---------------------------------------------------------------------
  // str.split(sep)
  // ---------------------------------------------------------------------

  /** The number of occurrences of c in s. */
  function Count(s: string, c: char): nat
    decreases |s|
  {
    if s == [] then 0 else (if s[0] == c then 1 else 0) + Count(s[1..], c)
  }

  /** The pieces joined back together, with sep between neighbours. */
  function Join(parts: seq<string>, sep: char): string
    requires |parts| >= 1
    decreases |parts|
  {
    if |parts| == 1 then parts[0] else parts[0] + [sep] + Join(parts[1..], sep)
  }

  /** Python's s.split(sep): the maximal pieces of s between occurrences
      of sep; always at least one piece, empty pieces included. */
  function Split(s: string, sep: char): (parts: seq<string>)
    ensures |parts| >= 1
    decreases |s|
  {
    if s == [] then [""]
    else
      var rest := Split(s[1..], sep);
      if s[0] == sep then [""] + rest
      else [[s[0]] + rest[0]] + rest[1..]
  }

  /** There is one more piece than there are separators, and no piece
      holds a separator. */
  lemma {:induction false} SplitPieces(s: string, sep: char)
    ensures |Split(s, sep)| == Count(s, sep) + 1
    ensures forall i | 0 <= i < |Split(s, sep)| :: sep !in Split(s, sep)[i]
    decreases |s|
  {
    if s != [] {
      SplitPieces(s[1..], sep);
    }
  }

  /** Joining the pieces with the separator gives back the string. */
  lemma {:induction false} JoinSplit(s: string, sep: char)
    ensures Join(Split(s, sep), sep) == s
    decreases |s|
  {
    if s != [] {
      JoinSplit(s[1..], sep);
      var rest := Split(s[1..], sep);
      if s[0] != sep {
        var parts := Split(s, sep);
        assert parts[1..] == rest[1..];
        if |rest| > 1 {
          assert Join(rest, sep) == rest[0] + [sep] + Join(rest[1..], sep);
        }
      }
      assert [s[0]] + s[1..] == s;
    }
  }

  lemma {:induction false} SplitNoSep(a: string, sep: char)
    requires sep !in a
    ensures Split(a, sep) == [a]
    decreases |a|
  {
    if a != [] {
      SplitNoSep(a[1..], sep);
      assert [a[0]] + a[1..] == a;
    }
  }

  lemma {:induction false} SplitPiece(a: string, rest: string, sep: char)
    requires sep !in a
    ensures Split(a + [sep] + rest, sep) == [a] + Split(rest, sep)
    decreases |a|
  {
    if a == [] {
      assert (a + [sep] + rest)[1..] == rest;
    } else {
      assert (a + [sep] + rest)[1..] == a[1..] + [sep] + rest;
      SplitPiece(a[1..], rest, sep);
      assert [a[0]] + a[1..] == a;
    }
  }

  /** Splitting undoes joining pieces that do not contain the separator. */
  lemma {:induction false} SplitJoin(parts: seq<string>, sep: char)
    requires |parts| >= 1
    requires forall i | 0 <= i < |parts| :: sep !in parts[i]
    ensures Split(Join(parts, sep), sep) == parts
    decreases |parts|
  {
    if |parts| == 1 {
      SplitNoSep(parts[0], sep);
    } else {
      SplitJoin(parts[1..], sep);
      SplitPiece(parts[0], Join(parts[1..], sep), sep);
      assert [parts[0]] + parts[1..] == parts;
    }
  }

  /** Splitting at the one separator between two pieces. */
  lemma SplitTwo(a: string, b: string, sep: char)
    requires sep !in a && sep !in b
    ensures Split(a + [sep] + b, sep) == [a, b]
  {
    SplitPiece(a, b, sep);
    SplitNoSep(b, sep);
  }

  /** Splitting at the two separators between three pieces. */
  lemma SplitThree(a: string, b: string, c: string, sep: char)
    requires sep !in a && sep !in b && sep !in c
    ensures Split(a + [sep] + b + [sep] + c, sep) == [a, b, c]
  {
    assert a + [sep] + b + [sep] + c == a + [sep] + (b + [sep] + c);
    SplitPiece(a, b + [sep] + c, sep);
    SplitTwo(b, c, sep);
  }

  // ---------------------------------------------------------------------
  // int(s) and str(n)
  // ---------------------------------------------------------------------

  predicate IsDigit(c: char)
  {
    '0' <= c <= '9'
  }

  /** A nonempty run of decimal digits. */
  predicate IsDigits(s: string)
  {
    |s| > 0 && forall i | 0 <= i < |s| :: IsDigit(s[i])
  }

  /** The value of a run of decimal digits, most significant first. */
  function DigitsValue(s: string): nat
    requires forall i | 0 <= i < |s| :: IsDigit(s[i])
    decreases |s|
  {
    if s == [] then 0
    else
      assert IsDigit(s[|s| - 1]);
      10 * DigitsValue(s[..|s| - 1]) + (s[|s| - 1] as int - '0' as int)
  }

  /** Python's int(s) in base 10: None where int() raises ValueError. */
  function ParseInt(s: string): Option<int>
  {
    var t := IntTrim(s);
    if IsDigits(t) then Some(DigitsValue(t))
    else if |t| > 0 && (t[0] == '+' || t[0] == '-') && IsDigits(t[1..]) then
      var magnitude: int := DigitsValue(t[1..]);
      Some(if t[0] == '-' then -magnitude else magnitude)
    else None
  }

  function DigitChar(d: int): char
    requires 0 <= d < 10
  {
    ('0' as int + d) as char
  }

  /** The decimal digits of n, without leading zeros. */
  function ShowNat(n: nat): string
    decreases n
  {
    if n < 10 then [DigitChar(n)] else ShowNat(n / 10) + [DigitChar(n % 10)]
  }

  /** ShowNat writes digits only, and their value is n. */
  lemma {:induction false} ShowNatDigits(n: nat)
    ensures IsDigits(ShowNat(n)) && DigitsValue(ShowNat(n)) == n
    decreases n
  {
    if n >= 10 {
      ShowNatDigits(n / 10);
      var s := ShowNat(n);
      assert s[..|s| - 1] == ShowNat(n / 10);
    }
  }

  /** Python's str(n): the digits of |n|, with a minus sign when n < 0. */
  function Show(n: int): string
  {
    if n < 0 then "-" + ShowNat(-n) else ShowNat(n)
  }

  /** What str(n) writes is nonempty, has no white space at its ends and
      holds none of the separators of the matrix-file format. */
  lemma ShowShape(n: int)
    ensures |Show(n)| > 0 && Trimmed(Show(n))
    ensures ',' !in Show(n) && '=' !in Show(n)
  {
    ShowNatDigits(if n < 0 then -n else n);
  }

  /** int() reads back what str() writes, whatever white space that int()
      skips surrounds it. */
  lemma ParseShow(pre: string, n: int, post: string)
    requires AllBlank(IntBlanks, pre) && AllBlank(IntBlanks, post)
    ensures ParseInt(pre + Show(n) + post) == Some(n)
  {
    ShowShape(n);
    TrimPadded(IntBlanks, pre, Show(n), post);
    if n < 0 {
      ShowNatDigits(-n);
      assert Show(n)[1..] == ShowNat(-n);
    } else {
      ShowNatDigits(n);
    }
  }

  /** int(str(n)) == n. */
  lemma ParseShowBare(n: int)
    ensures ParseInt(Show(n)) == Some(n)
  {
    ParseShow([], n, []);
    assert [] + Show(n) + [] == Show(n);
  }

  /** The white space the two trims disagree on: strip() removes a unit
      separator U+001F, but int() fails on it, while both skip a no-break
      space U+00A0. */
  lemma IntTrimKeepsSeparators()
    ensures Strip("\U{1F}2") == "2"
    ensures ParseInt("\U{1F}2") == None
    ensures ParseInt("\U{A0}2") == Some(2)
  {
    assert IntTrim("\U{1F}2") == "\U{1F}2";
    ParseShow("\U{A0}", 2, []);
    assert "\U{A0}" + Show(2) + [] == "\U{A0}2";
  }
}
