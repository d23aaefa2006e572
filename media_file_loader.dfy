/** The filename parser of training/poo/mediamanager/media_file_loader.py:
    `get_series_value_from_file` splits off the extension, finds the
    leftmost `-sNNeNN-` marker and cuts the stem around it. */
module MediaFileLoader {
  import opened Outcomes

  /** `s.rfind(c)`: the index of the last c in s, or -1. */
  function RFind(s: string, c: char): (r: int)
    ensures -1 <= r < |s|
    ensures r >= 0 ==> s[r] == c
    ensures forall k :: r < k < |s| ==> s[k] != c
    decreases |s|
  {
    if s == [] then -1
    else if s[|s| - 1] == c then |s| - 1
    else RFind(s[..|s| - 1], c)
  }

  /** `os.path.splitext(p)` with POSIX rules: the extension starts at the
      last '.', provided that dot lies after the last '/' and is not one of
      the leading dots of the last path component; otherwise it is empty. */
  function SplitExt(p: string): (r: (string, string))
    ensures r.0 + r.1 == p
    ensures r.1 == "" || (r.1[0] == '.' && '.' !in r.1[1..] && '/' !in r.1)
  {
    var sep, dot := RFind(p, '/'), RFind(p, '.');
    if dot > sep && exists k :: sep + 1 <= k < dot && p[k] != '.' then
      assert p[..dot] + p[dot..] == p;
      assert forall k :: dot < k < |p| ==> p[dot..][k - dot] == p[k];
      (p[..dot], p[dot..])
    else (p, "")
  }

  predicate IsDigit(c: char) { '0' <= c <= '9' }

  /** The pattern `-s([0-9]{2})e([0-9]{2})-` matches s at position i. */
  predicate MarkerAt(s: string, i: int) {
    && 0 <= i && i + 8 <= |s|
    && s[i] == '-' && s[i + 1] == 's' && IsDigit(s[i + 2]) && IsDigit(s[i + 3])
    && s[i + 4] == 'e' && IsDigit(s[i + 5]) && IsDigit(s[i + 6]) && s[i + 7] == '-'
  }

  /** `series_re.search(s)` from position `from`: the leftmost start of a
      match, or None. The pattern has a fixed length of 8, so a match
      starting at i ends at i + 8. */
  function Search(s: string, from: nat): (r: Option<nat>)
    ensures r.Some? ==> from <= r.value && MarkerAt(s, r.value)
    ensures r.Some? ==> forall j :: from <= j < r.value ==> !MarkerAt(s, j)
    ensures r.None? ==> forall j :: from <= j ==> !MarkerAt(s, j)
    decreases |s| - from
  {
    if from + 8 > |s| then None
    else if MarkerAt(s, from) then Some(from)
    else Search(s, from + 1)
  }

  /** `s.replace(c, d)` for one character c by one character d. */
  function Replace(s: string, c: char, d: char): (r: string)
    ensures |r| == |s|
    ensures forall k :: 0 <= k < |s| ==> r[k] == if s[k] == c then d else s[k]
  {
    seq(|s|, k requires 0 <= k < |s| => if s[k] == c then d else s[k])
  }

  /** `s.replace('_', ' ')`. */
  function UnderscoresToSpaces(s: string): (r: string)
    ensures |r| == |s| && '_' !in r
    ensures forall k :: 0 <= k < |s| ==> r[k] == if s[k] == '_' then ' ' else s[k]
  {
    Replace(s, '_', ' ')
  }

  /** The five fields `get_series_value_from_file` returns as a list. */
  datatype SeriesInfo = SeriesInfo(show: string, season: string, episode: string, title: string, ext: string)

  /** `get_series_value_from_file(filename)`. */
  function GetSeriesValueFromFile(filename: string): (r: Option<SeriesInfo>)
    ensures r.None? <==> forall j :: !MarkerAt(SplitExt(filename).0, j)
    ensures r.Some? ==> SplitExt(filename).0 + r.value.ext == filename
    ensures r.Some? ==> |r.value.season| == 2 && IsDigit(r.value.season[0]) && IsDigit(r.value.season[1])
    ensures r.Some? ==> |r.value.episode| == 2 && IsDigit(r.value.episode[0]) && IsDigit(r.value.episode[1])
    ensures r.Some? ==> '_' !in r.value.show && '_' !in r.value.title
  {
    var (stem, ext) := SplitExt(filename);
    match Search(stem, 0)
    case None => None
    case Some(i) =>
      Some(SeriesInfo(UnderscoresToSpaces(stem[..i]), stem[i + 2..i + 4], stem[i + 5..i + 7],
                      UnderscoresToSpaces(stem[i + 8..]), ext))
  }

  /** A stem with a marker at i is the text before it, the marker with
      its two numbers, and the text after it. */
  lemma Reassemble(stem: string, i: nat)
    requires MarkerAt(stem, i)
    ensures stem == stem[..i] + ("-s" + stem[i + 2..i + 4] + "e" + stem[i + 5..i + 7] + "-") + stem[i + 8..]
  {
    var marker := "-s" + stem[i + 2..i + 4] + "e" + stem[i + 5..i + 7] + "-";
    assert marker == stem[i..i + 8];
    assert stem == stem[..i] + stem[i..i + 8] + stem[i + 8..];
  }

  /** On a match, the stem is the show part, the marker with the two
      numbers, and the title part, cut at the leftmost marker; show and
      title are those parts with '_' read as a space. */
  lemma ParsedFields(filename: string)
    requires GetSeriesValueFromFile(filename).Some?
    ensures var stem, info := SplitExt(filename).0, GetSeriesValueFromFile(filename).value;
      var i := Search(stem, 0).value;
      && MarkerAt(stem, i) && (forall j :: 0 <= j < i ==> !MarkerAt(stem, j))
      && stem == stem[..i] + ("-s" + info.season + "e" + info.episode + "-") + stem[i + 8..]
      && info.show == UnderscoresToSpaces(stem[..i])
      && info.title == UnderscoresToSpaces(stem[i + 8..])
  {
    var stem := SplitExt(filename).0;
    Reassemble(stem, Search(stem, 0).value);
  }

  /** `s.replace(' ', '_')`: how the filenames spell their spaces. */
  function SpacesToUnderscores(s: string): string {
    Replace(s, ' ', '_')
  }

  /** The filename that names an episode as `<show>-sNNeNN-<title><ext>`. */
  function FileName(info: SeriesInfo): string {
    SpacesToUnderscores(info.show) + "-s" + info.season + "e" + info.episode + "-"
      + SpacesToUnderscores(info.title) + info.ext
  }

  /** The conditions under which FileName can be read back: no '_' (it
      would come back as a space), no '-' in the show (a marker could start
      there), two-digit numbers, and an extension that `splitext` finds
      again. */
  predicate Readable(info: SeriesInfo) {
    && '_' !in info.show && '-' !in info.show
    && '_' !in info.title && '/' !in info.title && '.' !in info.title
    && |info.season| == 2 && IsDigit(info.season[0]) && IsDigit(info.season[1])
    && |info.episode| == 2 && IsDigit(info.episode[0]) && IsDigit(info.episode[1])
    && if info.ext == "" then '.' !in info.show
       else info.ext[0] == '.' && '.' !in info.ext[1..] && '/' !in info.ext
  }

  /** Replacing spaces by '_' and back gives the original text when it
      held no '_'. */
  lemma UnderscoreRoundTrip(s: string)
    requires '_' !in s
    ensures UnderscoresToSpaces(SpacesToUnderscores(s)) == s
  {
    var u := SpacesToUnderscores(s);
    assert forall k :: 0 <= k < |s| ==> s[k] != '_';
    assert forall k :: 0 <= k < |s| ==> UnderscoresToSpaces(u)[k] == s[k];
  }

  /** The contract of RFind pins its result down. */
  lemma RFindUnique(s: string, c: char, q: int)
    requires -1 <= q < |s| && (q >= 0 ==> s[q] == c)
    requires forall k :: q < k < |s| ==> s[k] != c
    ensures RFind(s, c) == q
  {
  }

  /** Text without c after s does not move the last c. */
  lemma RFindAppend(s: string, t: string, c: char)
    requires c !in t
    ensures RFind(s + t, c) == RFind(s, c)
  {
    var q := RFind(s, c);
    if q >= 0 {
      assert (s + t)[q] == s[q];
    }
    forall k | q < k < |s + t| ensures (s + t)[k] != c {
      if k < |s| {
        assert (s + t)[k] == s[k];
      } else {
        assert (s + t)[k] == t[k - |s|];
      }
    }
    RFindUnique(s + t, c, q);
  }

  /** `splitext` splits a stem and an extension joined together back into
      the two when the extension is empty and the stem has no dot, or the
      extension is one dot with neither dot nor '/' after it and the stem's
      last component has a character other than a dot. */
  lemma SplitExtJoin(stem: string, ext: string)
    requires ext == "" ==> '.' !in stem
    requires ext != "" ==> ext[0] == '.' && '.' !in ext[1..] && '/' !in ext
    requires ext != "" ==> exists k :: RFind(stem, '/') < k < |stem| && stem[k] != '.'
    ensures SplitExt(stem + ext) == (stem, ext)
  {
    var p := stem + ext;
    if ext == "" {
      assert p == stem;
      RFindUnique(p, '.', -1);
    } else {
      assert '/' !in ext;
      RFindAppend(stem, ext, '/');
      forall k | |stem| < k < |p| ensures p[k] != '.' {
        assert p[k] == ext[1..][k - |stem| - 1];
      }
      assert p[|stem|] == '.';
      RFindUnique(p, '.', |stem|);
      var k :| RFind(stem, '/') < k < |stem| && stem[k] != '.';
      assert p[k] == stem[k];
      assert p[..|stem|] == stem && p[|stem|..] == ext;
    }
  }

  /** Characters other than ' ' and '_' survive SpacesToUnderscores. */
  lemma UnderscoredKeeps(s: string, c: char)
    requires c != ' ' && c != '_'
    ensures c in SpacesToUnderscores(s) <==> c in s
  {
    var u := SpacesToUnderscores(s);
    if c in u {
      var k :| 0 <= k < |u| && u[k] == c;
      assert s[k] == c;
    }
    if c in s {
      var k :| 0 <= k < |s| && s[k] == c;
      assert u[k] == c;
    }
  }

  /** The stem of a readable FileName, which `splitext` recovers. */
  lemma SplitFileName(info: SeriesInfo)
    requires Readable(info)
    ensures var show, title := SpacesToUnderscores(info.show), SpacesToUnderscores(info.title);
      SplitExt(FileName(info)) == (show + ("-s" + info.season + "e" + info.episode + "-" + title), info.ext)
  {
    var show, title := SpacesToUnderscores(info.show), SpacesToUnderscores(info.title);
    var marker := "-s" + info.season + "e" + info.episode + "-";
    var rest := marker + title;
    var stem := show + rest;
    assert FileName(info) == stem + info.ext;
    UnderscoredKeeps(info.title, '.');
    UnderscoredKeeps(info.title, '/');
    UnderscoredKeeps(info.show, '.');
    assert '.' !in marker && '/' !in marker by {
      assert forall k :: 0 <= k < 8 ==> marker[k] != '.' && marker[k] != '/';
    }
    assert '.' !in rest && '/' !in rest by {
      forall k | 0 <= k < |rest| ensures rest[k] != '.' && rest[k] != '/' {
        if k >= 8 { assert rest[k] == title[k - 8]; }
      }
    }
    if info.ext == "" {
      assert '.' !in stem by {
        forall k | 0 <= k < |stem| ensures stem[k] != '.' {
          if k < |show| { assert stem[k] == show[k]; } else { assert stem[k] == rest[k - |show|]; }
        }
      }
    } else {
      RFindAppend(show, rest, '/');
      assert stem[|show|] == '-';
    }
    SplitExtJoin(stem, info.ext);
  }

  /** With no '-' before it, a marker right after `show` is the leftmost. */
  lemma FirstMarker(show: string, rest: string)
    requires '-' !in show && MarkerAt(rest, 0)
    ensures Search(show + rest, 0) == Some(|show|)
  {
    var stem := show + rest;
    assert forall k :: 0 <= k < 8 ==> stem[|show| + k] == rest[k];
    assert MarkerAt(stem, |show|);
    forall j | 0 <= j < |show| ensures !MarkerAt(stem, j) {
      assert stem[j] == show[j];
    }
  }

  /** The stem of a readable FileName holds its leftmost marker right
      after the show, with the two numbers in it. */
  lemma StemFields(info: SeriesInfo)
    requires Readable(info)
    ensures var show, title := SpacesToUnderscores(info.show), SpacesToUnderscores(info.title);
      var stem, n := show + ("-s" + info.season + "e" + info.episode + "-" + title), |show|;
      && Search(stem, 0) == Some(n)
      && stem[..n] == show && stem[n + 2..n + 4] == info.season
      && stem[n + 5..n + 7] == info.episode && stem[n + 8..] == title
  {
    var show, title := SpacesToUnderscores(info.show), SpacesToUnderscores(info.title);
    var rest := "-s" + info.season + "e" + info.episode + "-" + title;
    UnderscoredKeeps(info.show, '-');
    assert rest[..8] == "-s" + info.season + "e" + info.episode + "-";
    FirstMarker(show, rest);
    var stem, n := show + rest, |show|;
    assert stem[n..] == rest;
    assert rest[8..] == title;
  }

  /** Reading a readable FileName back gives the fields it was made of. */
  lemma FileNameRoundTrip(info: SeriesInfo)
    requires Readable(info)
    ensures GetSeriesValueFromFile(FileName(info)) == Some(info)
  {
    SplitFileName(info);
    StemFields(info);
    UnderscoreRoundTrip(info.show);
    UnderscoreRoundTrip(info.title);
  }

  /** SpacesToUnderscores works piecewise. */
  lemma UnderscoredAppend(a: string, b: string)
    ensures SpacesToUnderscores(a + b) == SpacesToUnderscores(a) + SpacesToUnderscores(b)
  {
    var l, r := SpacesToUnderscores(a + b), SpacesToUnderscores(a) + SpacesToUnderscores(b);
    forall k | 0 <= k < |a + b| ensures l[k] == r[k] {
      if k < |a| { assert (a + b)[k] == a[k]; } else { assert (a + b)[k] == b[k - |a|]; }
    }
  }

  /** A space between two texts is spelt '_'. */
  lemma UnderscoredJoin(a: string, b: string)
    ensures SpacesToUnderscores(a + " " + b) == SpacesToUnderscores(a) + "_" + SpacesToUnderscores(b)
  {
    UnderscoredAppend(a, " ");
    UnderscoredAppend(a + " ", b);
    assert SpacesToUnderscores(" ") == "_";
  }

  /** Text without spaces is spelt as it is. */
  lemma UnderscoredWord(a: string)
    requires ' ' !in a
    ensures SpacesToUnderscores(a) == a
  {
  }

  // The sample of the module, one small step per lemma: string literals
  // are expensive for the solver once several meet in one proof.

  lemma SampleWords()
    ensures SpacesToUnderscores("Silicon") == "Silicon"
    ensures SpacesToUnderscores("Valley") == "Valley"
    ensures SpacesToUnderscores("Articles") == "Articles"
    ensures SpacesToUnderscores("Of") == "Of"
    ensures SpacesToUnderscores("Incorporation") == "Incorporation"
  {
    UnderscoredWord("Silicon");
    UnderscoredWord("Valley");
    UnderscoredWord("Articles");
    UnderscoredWord("Of");
    UnderscoredWord("Incorporation");
  }

  lemma SampleShowSplit()
    ensures "Silicon Valley" == "Silicon" + " " + "Valley"
    ensures "Silicon" + "_" + "Valley" == "Silicon_Valley"
  {
  }

  lemma SampleShowSpelling()
    ensures SpacesToUnderscores("Silicon Valley") == "Silicon_Valley"
  {
    SampleShowSplit();
    SampleWords();
    UnderscoredJoin("Silicon", "Valley");
  }

  lemma SampleTitleSplit()
    ensures "Of Incorporation" == "Of" + " " + "Incorporation"
    ensures "Of" + "_" + "Incorporation" == "Of_Incorporation"
    ensures "Articles Of Incorporation" == "Articles" + " " + "Of Incorporation"
    ensures "Articles" + "_" + "Of_Incorporation" == "Articles_Of_Incorporation"
  {
  }

  lemma SampleTitleTail()
    ensures SpacesToUnderscores("Of Incorporation") == "Of_Incorporation"
  {
    SampleTitleSplit();
    SampleWords();
    UnderscoredJoin("Of", "Incorporation");
  }

  lemma SampleTitleSpelling()
    ensures SpacesToUnderscores("Articles Of Incorporation") == "Articles_Of_Incorporation"
  {
    SampleTitleSplit();
    SampleWords();
    SampleTitleTail();
    UnderscoredJoin("Articles", "Of Incorporation");
  }

  lemma SampleHead()
    ensures "Silicon_Valley" + "-s" + "01" + "e" + "03" + "-" == "Silicon_Valley-s01e03-"
  {
  }

  lemma SampleTail()
    ensures "Silicon_Valley-s01e03-" + "Articles_Of_Incorporation" + ".avi"
         == "Silicon_Valley-s01e03-Articles_Of_Incorporation.avi"
  {
  }

  lemma SampleFileName()
    ensures FileName(SeriesInfo("Silicon Valley", "01", "03", "Articles Of Incorporation", ".avi"))
         == "Silicon_Valley-s01e03-Articles_Of_Incorporation.avi"
  {
    SampleShowSpelling();
    SampleTitleSpelling();
    SampleHead();
    SampleTail();
  }

  lemma SampleShowChars()
    ensures '_' !in "Silicon Valley" && '-' !in "Silicon Valley"
  {
  }

  lemma SampleTitleChars()
    ensures '_' !in "Articles Of Incorporation" && '/' !in "Articles Of Incorporation"
    ensures '.' !in "Articles Of Incorporation"
  {
  }

  lemma SampleReadable()
    ensures Readable(SeriesInfo("Silicon Valley", "01", "03", "Articles Of Incorporation", ".avi"))
  {
    SampleShowChars();
    SampleTitleChars();
    assert ".avi"[1..] == "avi";
  }

  /** The sample filename of the module parses as the source prints it. */
  lemma SiliconValleyExample()
    ensures GetSeriesValueFromFile("Silicon_Valley-s01e03-Articles_Of_Incorporation.avi")
         == Some(SeriesInfo("Silicon Valley", "01", "03", "Articles Of Incorporation", ".avi"))
  {
    SampleFileName();
    SampleReadable();
    FileNameRoundTrip(SeriesInfo("Silicon Valley", "01", "03", "Articles Of Incorporation", ".avi"));
  }
}
