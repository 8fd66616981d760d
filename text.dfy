/**
 * Text helpers: cutting a string at every occurrence of a separator and
 * gluing pieces back, java.lang.String.split with a one-character pattern
 * and no limit (which drops trailing empty pieces), and decimal rendering
 * of naturals as Long.toString does it, with its parse.
 */
module Text {
  /** The pieces of `s` between occurrences of `sep`, empty pieces included. */
  function Segments(s: string, sep: char): (r: seq<string>)
    ensures |r| >= 1
    decreases |s|
  {
    if s == [] then [[]]
    else
      var rest := Segments(s[1..], sep);
      if s[0] == sep then [[]] + rest
      else [[s[0]] + rest[0]] + rest[1..]
  }

  /** The pieces glued with `sep` between each pair of neighbours. */
  function Join(parts: seq<string>, sep: char): string
    requires |parts| >= 1
    decreases |parts|
  {
    if |parts| == 1 then parts[0] else parts[0] + [sep] + Join(parts[1..], sep)
  }

  /** No piece contains the separator. */
  ghost predicate SeparatorFree(parts: seq<string>, sep: char)
  {
    forall i :: 0 <= i < |parts| ==> sep !in parts[i]
  }

  /** Cutting and gluing gives the string back. */
  lemma {:induction false} JoinSegments(s: string, sep: char)
    ensures Join(Segments(s, sep), sep) == s
    decreases |s|
  {
    if s != [] {
      var rest := Segments(s[1..], sep);
      JoinSegments(s[1..], sep);
      var r := Segments(s, sep);
      if s[0] == sep {
        assert r[1..] == rest;
      } else if |rest| == 1 {
        assert r == [[s[0]] + s[1..]];
      } else {
        assert r[1..] == rest[1..];
        assert Join(rest, sep) == rest[0] + [sep] + Join(rest[1..], sep);
        assert Join(r, sep) == [s[0]] + (rest[0] + [sep] + Join(rest[1..], sep));
      }
      assert [s[0]] + s[1..] == s;
    }
  }

  /** No piece holds the separator. */
  lemma {:induction false} SegmentsSeparatorFree(s: string, sep: char)
    ensures SeparatorFree(Segments(s, sep), sep)
    decreases |s|
  {
    if s != [] {
      var rest := Segments(s[1..], sep);
      SegmentsSeparatorFree(s[1..], sep);
      var r := Segments(s, sep);
      forall i | 0 <= i < |r| ensures sep !in r[i] {
        if s[0] == sep {
          if i > 0 {
            assert r[i] == rest[i - 1];
          }
        } else if i > 0 {
          assert r[i] == rest[i];
        } else {
          assert r[0] == [s[0]] + rest[0];
        }
      }
    }
  }

  /** Gluing separator-free pieces and cutting gives the pieces back. */
  lemma {:induction false} SegmentsJoin(parts: seq<string>, sep: char)
    requires |parts| >= 1 && SeparatorFree(parts, sep)
    ensures Segments(Join(parts, sep), sep) == parts
    decreases |parts|, |parts[0]|
  {
    var p := parts[0];
    if p == [] {
      if |parts| > 1 {
        SegmentsJoin(parts[1..], sep);
        assert Join(parts, sep)[1..] == Join(parts[1..], sep);
        assert [[]] + parts[1..] == parts;
      }
    } else {
      var shorter := [p[1..]] + parts[1..];
      assert shorter[1..] == parts[1..];
      assert SeparatorFree(shorter, sep) by {
        forall i | 0 <= i < |shorter| ensures sep !in shorter[i] {
          if i == 0 {
            assert p == [p[0]] + p[1..];
          } else {
            assert shorter[i] == parts[i];
          }
        }
      }
      SegmentsJoin(shorter, sep);
      var j := Join(parts, sep);
      assert j[0] == p[0] && j[1..] == Join(shorter, sep);
      assert p[0] != sep;
      assert [p[0]] + p[1..] == p;
    }
  }

  /** A separator appended to a string adds one empty piece at the end. */
  lemma {:induction false} SegmentsAppendSeparator(s: string, sep: char)
    ensures Segments(s + [sep], sep) == Segments(s, sep) + [[]]
    decreases |s|
  {
    if s == [] {
      assert [sep][1..] == [];
    } else {
      assert (s + [sep])[1..] == s[1..] + [sep];
      SegmentsAppendSeparator(s[1..], sep);
    }
  }

  /** A string without the separator is one piece. */
  lemma {:induction false} SegmentsWithoutSeparator(s: string, sep: char)
    requires sep !in s
    ensures Segments(s, sep) == [s]
    decreases |s|
  {
    if s != [] {
      SegmentsWithoutSeparator(s[1..], sep);
      assert [s[0]] + s[1..] == s;
    }
  }

  /** Every piece is empty exactly when the string is made of separators only. */
  lemma {:induction false} SegmentsAllEmpty(s: string, sep: char)
    ensures (forall i :: 0 <= i < |Segments(s, sep)| ==> Segments(s, sep)[i] == [])
        <==> (forall i :: 0 <= i < |s| ==> s[i] == sep)
    decreases |s|
  {
    if s != [] {
      SegmentsAllEmpty(s[1..], sep);
      var rest := Segments(s[1..], sep);
      if s[0] == sep {
        assert forall i :: 0 <= i < |rest| ==> Segments(s, sep)[i + 1] == rest[i];
        assert forall i :: 1 <= i < |s| ==> s[i] == s[1..][i - 1];
      } else {
        assert Segments(s, sep)[0] != [];
      }
    }
  }

  /** Removes the empty pieces at the end, as String.split does. */
  function DropTrailingEmpty(parts: seq<string>): (r: seq<string>)
    decreases |parts|
  {
    if parts != [] && parts[|parts| - 1] == [] then DropTrailingEmpty(parts[..|parts| - 1])
    else parts
  }

  /**
   * The result is the longest prefix of the pieces whose last element is
   * non-empty; everything dropped is empty.
   */
  lemma {:induction false} DropTrailingEmptyPrefix(parts: seq<string>)
    ensures |DropTrailingEmpty(parts)| <= |parts|
    ensures DropTrailingEmpty(parts) == parts[..|DropTrailingEmpty(parts)|]
    ensures forall i :: |DropTrailingEmpty(parts)| <= i < |parts| ==> parts[i] == []
    ensures DropTrailingEmpty(parts) != [] ==> DropTrailingEmpty(parts)[|DropTrailingEmpty(parts)| - 1] != []
    decreases |parts|
  {
    if parts != [] && parts[|parts| - 1] == [] {
      DropTrailingEmptyPrefix(parts[..|parts| - 1]);
    }
  }

  /** One more empty piece at the end changes nothing. */
  lemma DropTrailingEmptyAppend(parts: seq<string>)
    ensures DropTrailingEmpty(parts + [[]]) == DropTrailingEmpty(parts)
  {
    assert (parts + [[]])[..|parts|] == parts;
  }

  /** Nothing is left exactly when every piece is empty. */
  lemma {:induction false} DropTrailingEmptyNone(parts: seq<string>)
    ensures DropTrailingEmpty(parts) == [] <==> forall i :: 0 <= i < |parts| ==> parts[i] == []
    decreases |parts|
  {
    DropTrailingEmptyPrefix(parts);
    if parts != [] && parts[|parts| - 1] == [] {
      DropTrailingEmptyNone(parts[..|parts| - 1]);
    }
  }

  /** An empty piece in front survives when something non-empty follows it. */
  lemma {:induction false} DropTrailingEmptyFront(parts: seq<string>)
    requires DropTrailingEmpty(parts) != []
    ensures DropTrailingEmpty([[]] + parts) == [[]] + DropTrailingEmpty(parts)
    decreases |parts|
  {
    if parts[|parts| - 1] == [] {
      var init := parts[..|parts| - 1];
      assert ([[]] + parts)[..|parts|] == [[]] + init;
      DropTrailingEmptyFront(init);
    }
  }

  const NEWLINE: char := '\n'

  /**
   * sysInfo.split("\\n"): with no newline at all the result is the whole
   * text as its one element (even when the text is empty); otherwise the
   * newline-separated pieces, minus the empty pieces at the end. Leading
   * and interior empty pieces are kept.
   */
  function SplitLines(s: string): (lines: seq<string>)
  {
    if NEWLINE !in s then [s] else DropTrailingEmpty(Segments(s, NEWLINE))
  }

  /** The lines of a split are a prefix of the pieces, and only empty pieces are lost. */
  lemma SplitLinesShape(s: string)
    ensures var lines, pieces := SplitLines(s), Segments(s, NEWLINE);
      |lines| <= |pieces| && lines == pieces[..|lines|] &&
      (forall i :: |lines| <= i < |pieces| ==> pieces[i] == []) &&
      (NEWLINE in s && lines != [] ==> lines[|lines| - 1] != [])
    ensures SeparatorFree(SplitLines(s), NEWLINE)
  {
    SegmentsSeparatorFree(s, NEWLINE);
    DropTrailingEmptyPrefix(Segments(s, NEWLINE));
    if NEWLINE !in s {
      SegmentsWithoutSeparator(s, NEWLINE);
    }
  }

  /** Splitting the empty text gives one empty line, not zero lines. */
  lemma SplitLinesEmptyText()
    ensures SplitLines("") == [""]
  {
  }

  /** A trailing newline adds no line, except to the empty text. */
  lemma SplitLinesTrailingNewline(s: string)
    requires s != []
    ensures SplitLines(s + [NEWLINE]) == SplitLines(s)
  {
    assert NEWLINE in s + [NEWLINE] by {
      assert (s + [NEWLINE])[|s|] == NEWLINE;
    }
    SegmentsAppendSeparator(s, NEWLINE);
    DropTrailingEmptyAppend(Segments(s, NEWLINE));
    if NEWLINE !in s {
      SegmentsWithoutSeparator(s, NEWLINE);
    }
  }

  /** There are zero lines exactly when the text is non-empty and made only of newlines. */
  lemma SplitLinesNone(s: string)
    ensures SplitLines(s) == [] <==> s != [] && forall i :: 0 <= i < |s| ==> s[i] == NEWLINE
  {
    SegmentsAllEmpty(s, NEWLINE);
    DropTrailingEmptyNone(Segments(s, NEWLINE));
    if s != [] && forall i :: 0 <= i < |s| ==> s[i] == NEWLINE {
      assert s[0] == NEWLINE;
    }
  }

  /** A leading newline adds a leading empty line when some other character follows. */
  lemma SplitLinesLeadingNewline(s: string)
    requires exists i :: 0 <= i < |s| && s[i] != NEWLINE
    ensures SplitLines([NEWLINE] + s) == [""] + SplitLines(s)
  {
    var t := [NEWLINE] + s;
    assert t[0] == NEWLINE && t[1..] == s;
    SplitLinesNone(s);
    if NEWLINE !in s {
      SegmentsWithoutSeparator(s, NEWLINE);
      assert Segments(t, NEWLINE) == [[], s];
    } else {
      DropTrailingEmptyFront(Segments(s, NEWLINE));
    }
  }

  /**
   * Splitting loses nothing but trailing newlines: the lines glued with
   * newlines are the text up to a tail made only of newlines.
   */
  lemma SplitLinesJoin(s: string)
    requires SplitLines(s) != []
    ensures var j := Join(SplitLines(s), NEWLINE);
      |j| <= |s| && s[..|j|] == j && forall i :: |j| <= i < |s| ==> s[i] == NEWLINE
  {
    var pieces := Segments(s, NEWLINE);
    var lines := SplitLines(s);
    SplitLinesShape(s);
    JoinSegments(s, NEWLINE);
    if NEWLINE in s {
      JoinEmptyTail(lines, pieces[|lines|..]);
      assert lines + pieces[|lines|..] == pieces;
    }
  }

  /** Gluing on a tail of empty pieces adds only separators. */
  lemma {:induction false} JoinEmptyTail(parts: seq<string>, tail: seq<string>)
    requires |parts| >= 1
    requires forall i :: 0 <= i < |tail| ==> tail[i] == []
    ensures Join(parts + tail, NEWLINE) == Join(parts, NEWLINE) + seq(|tail|, _ => NEWLINE)
    decreases |parts|
  {
    if |parts| == 1 {
      JoinEmpties(tail);
      assert [] + seq(|tail|, _ => NEWLINE) == seq(|tail|, _ => NEWLINE);
      if tail != [] {
        assert (parts + tail)[1..] == tail;
      }
    } else {
      JoinEmptyTail(parts[1..], tail);
      assert (parts + tail)[1..] == parts[1..] + tail;
    }
  }

  /** Pieces that are all empty glue to one separator fewer than there are pieces. */
  lemma {:induction false} JoinEmpties(tail: seq<string>)
    requires forall i :: 0 <= i < |tail| ==> tail[i] == []
    ensures tail != [] ==> Join(tail, NEWLINE) == seq(|tail| - 1, _ => NEWLINE)
    decreases |tail|
  {
    if |tail| > 1 {
      JoinEmpties(tail[1..]);
    }
  }

  // ----- decimal numbers -----

  predicate IsDigit(c: char)
  {
    '0' <= c <= '9'
  }

  predicate IsDigits(s: string)
  {
    forall i :: 0 <= i < |s| ==> IsDigit(s[i])
  }

  function DigitChar(d: nat): (c: char)
    requires d < 10
    ensures IsDigit(c)
  {
    (48 + d) as char
  }

  function DigitValue(c: char): (d: nat)
    requires IsDigit(c)
    ensures d < 10
  {
    c as int - 48
  }

  /** Long.toString for a non-negative value: decimal, no sign, no leading zero. */
  function DecimalString(n: nat): (s: string)
    ensures |s| >= 1 && IsDigits(s)
  {
    if n < 10 then [DigitChar(n)] else DecimalString(n / 10) + [DigitChar(n % 10)]
  }

  /** The value of a string of decimal digits (the empty string counts as 0). */
  function ParseDecimal(s: string): nat
    requires IsDigits(s)
  {
    if s == [] then 0 else 10 * ParseDecimal(s[..|s| - 1]) + DigitValue(s[|s| - 1])
  }

  /** Parsing a rendered number gives the number back. */
  lemma {:induction false} ParseDecimalString(n: nat)
    ensures ParseDecimal(DecimalString(n)) == n
  {
    var s := DecimalString(n);
    if n < 10 {
      assert s[..0] == [];
    } else {
      ParseDecimalString(n / 10);
      assert s[..|s| - 1] == DecimalString(n / 10);
    }
  }

  /** Rendered numbers carry no leading zero, so equal renderings mean equal numbers. */
  lemma {:induction false} DecimalStringCanonical(n: nat)
    ensures |DecimalString(n)| > 1 ==> DecimalString(n)[0] != '0'
  {
    if n >= 10 {
      DecimalStringCanonical(n / 10);
    }
  }
}
