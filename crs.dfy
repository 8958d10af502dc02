/** Reading the CRS pair typed in the sidebar (BIM_a_GIS_2D.py:99-106): the text is
    split on "→", each part is stripped, and exactly two parts name the source and the
    target CRS of the transformer installed in the converter. */
module Crs {
  import opened Wrappers
  import opened Shapes
  import opened Converter

  const Arrow: char := '→'

  /** The text the session starts with (BIM_a_GIS_2D.py:73-74). */
  const DefaultCrs: string := "EPSG:25830 → EPSG:4326"

  /** Python's `str.isspace` for one character. */
  predicate IsSpace(c: char)
  {
    c in {' ', '\t', '\n', '\r', '\U{000B}', '\U{000C}', '\U{001C}', '\U{001D}', '\U{001E}', '\U{001F}',
          '\U{0085}', '\U{00A0}', '\U{1680}', '\U{2000}', '\U{2001}', '\U{2002}', '\U{2003}', '\U{2004}',
          '\U{2005}', '\U{2006}', '\U{2007}', '\U{2008}', '\U{2009}', '\U{200A}', '\U{2028}', '\U{2029}',
          '\U{202F}', '\U{205F}', '\U{3000}'}
  }

  // ---------------------------------------------------------------------------
  // str.split(sep)
  // ---------------------------------------------------------------------------

  /** `s.split(sep)` for a one-character separator: the pieces between separators,
      empty ones included. */
  function Split(s: string, sep: char): seq<string>
  {
    if |s| == 0 then [""]
    else
      var parts := Split(s[..|s| - 1], sep);
      var c := s[|s| - 1];
      if c == sep then parts + [""]
      else parts[..|parts| - 1] + [parts[|parts| - 1] + [c]]
  }

  /** `sep.join(parts)`. */
  function Join(parts: seq<string>, sep: char): string
  {
    if |parts| == 0 then ""
    else if |parts| == 1 then parts[0]
    else Join(parts[..|parts| - 1], sep) + [sep] + parts[|parts| - 1]
  }

  /** The number of occurrences of `c` in `s`. */
  function Occurrences(s: string, c: char): nat
  {
    if |s| == 0 then 0 else Occurrences(s[..|s| - 1], c) + if s[|s| - 1] == c then 1 else 0
  }

  /** Splitting gives one piece more than there are separators, no piece holds the
      separator, and joining the pieces back gives the text. */
  lemma SplitJoin(s: string, sep: char)
    ensures |Split(s, sep)| == Occurrences(s, sep) + 1
    ensures forall k :: 0 <= k < |Split(s, sep)| ==> sep !in Split(s, sep)[k]
    ensures Join(Split(s, sep), sep) == s
  {
    SplitCount(s, sep);
    SplitPiecesFree(s, sep);
    SplitJoinBack(s, sep);
  }

  lemma {:induction false} SplitCount(s: string, sep: char)
    ensures |Split(s, sep)| == Occurrences(s, sep) + 1
  {
    if |s| > 0 {
      SplitCount(s[..|s| - 1], sep);
    }
  }

  lemma {:induction false} SplitPiecesFree(s: string, sep: char)
    ensures forall k :: 0 <= k < |Split(s, sep)| ==> sep !in Split(s, sep)[k]
  {
    if |s| > 0 {
      var init := s[..|s| - 1];
      var c := s[|s| - 1];
      SplitPiecesFree(init, sep);
      var parts := Split(init, sep);
      if c != sep {
        var last := parts[|parts| - 1];
        assert sep !in last + [c] by {
          assert sep !in last;
        }
      }
    }
  }

  lemma {:induction false} SplitJoinBack(s: string, sep: char)
    ensures Join(Split(s, sep), sep) == s
  {
    if |s| > 0 {
      var init := s[..|s| - 1];
      var c := s[|s| - 1];
      var parts := Split(init, sep);
      SplitJoinBack(init, sep);
      SplitCount(init, sep);
      if c == sep {
        assert Split(s, sep) == parts + [""];
        JoinThenEmpty(parts, sep);
      } else {
        assert Split(s, sep) == parts[..|parts| - 1] + [parts[|parts| - 1] + [c]];
        JoinExtendLast(parts, sep, c);
      }
      ByLast(s);
    }
  }

  /** A non-empty text is its front followed by its last character. */
  lemma ByLast(s: string)
    requires |s| > 0
    ensures s[..|s| - 1] + [s[|s| - 1]] == s
  {
  }

  /** An empty last piece adds one separator to the joined text. */
  lemma JoinThenEmpty(parts: seq<string>, sep: char)
    requires |parts| > 0
    ensures Join(parts + [""], sep) == Join(parts, sep) + [sep]
  {
    assert (parts + [""])[..|parts|] == parts;
  }

  /** Growing the last piece by one character grows the joined text by it. */
  lemma JoinExtendLast(parts: seq<string>, sep: char, c: char)
    requires |parts| > 0
    ensures Join(parts[..|parts| - 1] + [parts[|parts| - 1] + [c]], sep) == Join(parts, sep) + [c]
  {
    var front := parts[..|parts| - 1];
    var last := parts[|parts| - 1];
    if |parts| > 1 {
      assert (front + [last + [c]])[..|front|] == front;
      assert Join(parts, sep) == Join(front, sep) + [sep] + last;
    }
  }

  /** Text free of the separator is one piece. */
  lemma {:induction false} SplitWithout(s: string, sep: char)
    requires sep !in s
    ensures Split(s, sep) == [s]
  {
    if |s| > 0 {
      SplitWithout(s[..|s| - 1], sep);
      assert s == s[..|s| - 1] + [s[|s| - 1]];
    }
  }

  /** A separator followed by separator-free text adds that text as the last piece. */
  lemma {:induction false} SplitThenPiece(x: string, sep: char, y: string)
    requires sep !in y
    ensures Split(x + [sep] + y, sep) == Split(x, sep) + [y]
  {
    if |y| == 0 {
      assert x + [sep] + y == x + [sep];
      assert (x + [sep])[..|x|] == x;
    } else {
      var init := y[..|y| - 1];
      var c := y[|y| - 1];
      SplitThenPiece(x, sep, init);
      var s := x + [sep] + y;
      assert s[..|s| - 1] == x + [sep] + init;
      assert y == init + [c];
    }
  }

  // ---------------------------------------------------------------------------
  // str.strip()
  // ---------------------------------------------------------------------------

  function TrimStart(s: string): string
  {
    if |s| > 0 && IsSpace(s[0]) then TrimStart(s[1..]) else s
  }

  function TrimEnd(s: string): string
  {
    if |s| > 0 && IsSpace(s[|s| - 1]) then TrimEnd(s[..|s| - 1]) else s
  }

  /** `s.strip()`: leading and trailing whitespace removed. */
  function Strip(s: string): string
  {
    TrimEnd(TrimStart(s))
  }

  /** Text that neither starts nor ends with whitespace. */
  predicate Stripped(s: string)
  {
    |s| == 0 || (!IsSpace(s[0]) && !IsSpace(s[|s| - 1]))
  }

  /** `strip` cuts a run of whitespace from each end and keeps the middle as it is:
      the result is stripped, and it is all of `s` when `s` already is. */
  lemma {:induction false} StripMeaning(s: string)
    ensures Stripped(Strip(s))
    ensures exists i, j :: (0 <= i <= j <= |s| && Strip(s) == s[i..j] &&
      (forall k :: 0 <= k < i ==> IsSpace(s[k])) && (forall k :: j <= k < |s| ==> IsSpace(s[k])))
    ensures Stripped(s) ==> Strip(s) == s
  {
    var i := TrimStartMeaning(s);
    var t := s[i..];
    var j := TrimEndMeaning(t);
    assert Strip(s) == t[..j] == s[i..i + j];
    forall k | i + j <= k < |s| ensures IsSpace(s[k]) {
      assert s[k] == t[k - i];
    }
    if |Strip(s)| > 0 {
      assert Strip(s)[0] == t[0];
    }
  }

  lemma {:induction false} TrimStartMeaning(s: string) returns (i: nat)
    ensures i <= |s| && TrimStart(s) == s[i..]
    ensures forall k :: 0 <= k < i ==> IsSpace(s[k])
    ensures i < |s| ==> !IsSpace(s[i])
    ensures |s| > 0 && !IsSpace(s[0]) ==> i == 0
  {
    if |s| > 0 && IsSpace(s[0]) {
      var i' := TrimStartMeaning(s[1..]);
      i := i' + 1;
      assert s[1..][i'..] == s[i..];
    } else {
      i := 0;
    }
  }

  lemma {:induction false} TrimEndMeaning(s: string) returns (j: nat)
    ensures j <= |s| && TrimEnd(s) == s[..j]
    ensures forall k :: j <= k < |s| ==> IsSpace(s[k])
    ensures j > 0 ==> !IsSpace(s[j - 1])
    ensures |s| > 0 && !IsSpace(s[|s| - 1]) ==> j == |s|
  {
    if |s| > 0 && IsSpace(s[|s| - 1]) {
      j := TrimEndMeaning(s[..|s| - 1]);
    } else {
      j := |s|;
    }
  }

  // ---------------------------------------------------------------------------
  // The CRS pair
  // ---------------------------------------------------------------------------

  /** Why the run stops at the CRS step: unpacking into two names fails, or pyproj
      does not know the pair. */
  datatype CrsError = NotTwoParts(count: nat) | UnknownCrs(source: string, target: string)

  /** `from_crs, to_crs = [s.strip() for s in crs_input.split("→")]`. */
  function ParseCrs(text: string): (r: Result<(string, string), CrsError>)
  {
    var parts := Split(text, Arrow);
    if |parts| != 2 then Err(NotTwoParts(|parts|))
    else Ok((Strip(parts[0]), Strip(parts[1])))
  }

  /** The text parses exactly when it holds one arrow, and the names are the stripped
      texts on either side of it. */
  lemma ParseCrsMeaning(text: string)
    ensures ParseCrs(text).Ok? <==> Occurrences(text, Arrow) == 1
    ensures ParseCrs(text).Ok? ==> exists i :: (0 <= i < |text| && text[i] == Arrow &&
      ParseCrs(text).value == (Strip(text[..i]), Strip(text[i + 1..])))
  {
    SplitJoin(text, Arrow);
    var parts := Split(text, Arrow);
    if |parts| == 2 {
      assert Join(parts, Arrow) == parts[0] + [Arrow] + parts[1];
      var i := |parts[0]|;
      assert text[..i] == parts[0] && text[i] == Arrow && text[i + 1..] == parts[1];
    }
  }

  /** Writing two stripped names around " → " and parsing the text gives them back. */
  lemma ParseCrsRoundTrip(source: string, target: string)
    requires Stripped(source) && Stripped(target)
    requires Arrow !in source && Arrow !in target
    ensures ParseCrs(source + " → " + target) == Ok((source, target))
  {
    var left := source + " ";
    var right := " " + target;
    assert source + " → " + target == left + [Arrow] + right;
    assert Arrow !in left && Arrow !in right;
    SplitThenPiece(left, Arrow, right);
    SplitWithout(left, Arrow);
    StripPadded(source, target);
  }

  /** One blank after a stripped name, or one before it, is all that `strip` removes. */
  lemma StripPadded(source: string, target: string)
    requires Stripped(source) && Stripped(target)
    ensures Strip(source + " ") == source && Strip(" " + target) == target
  {
    assert IsSpace(' ');
    var s := source + " ";
    if |source| > 0 {
      assert s[0] == source[0];
      assert TrimStart(s) == s;
      assert s[..|s| - 1] == source;
      var _ := TrimEndMeaning(source);
    } else {
      assert TrimStart(s) == TrimStart(s[1..]) && s[1..] == "";
    }
    var t := " " + target;
    assert TrimStart(t) == TrimStart(t[1..]) && t[1..] == target;
    var _ := TrimStartMeaning(target);
    var _ := TrimEndMeaning(target);
  }

  /** The default text names EPSG:25830 (ETRS89 / UTM zone 30N) and EPSG:4326 (WGS 84). */
  lemma DefaultCrsParses()
    ensures ParseCrs(DefaultCrs) == Ok(("EPSG:25830", "EPSG:4326"))
  {
    assert DefaultCrs == "EPSG:25830" + " → " + "EPSG:4326";
    ParseCrsRoundTrip("EPSG:25830", "EPSG:4326");
  }

  /** Lines 99-106: parse the text, build the transformer and install it. `resolve`
      stands for `Transformer.from_crs(..., always_xy=True)`, `None` when pyproj raises.
      On an error the run stops and the converter keeps the transformer it had. */
  method ConfigureCrs(conv: Converter, text: string, resolve: (string, string) -> Option<Transformer>)
    returns (r: Result<(string, string), CrsError>)
    modifies conv
    ensures r.Ok? <==> ParseCrs(text).Ok? && resolve(ParseCrs(text).value.0, ParseCrs(text).value.1).Some?
    ensures r.Ok? ==> r.value == ParseCrs(text).value && conv.transformer == resolve(r.value.0, r.value.1)
    ensures r.Err? ==> conv.transformer == old(conv.transformer)
  {
    var parsed := ParseCrs(text);
    if parsed.Err? {
      return Err(parsed.error);
    }
    var (source, target) := parsed.value;
    var transformer := resolve(source, target);
    if transformer.None? {
      return Err(UnknownCrs(source, target));
    }
    conv.SetTransformer(transformer);
    r := Ok((source, target));
  }
}
