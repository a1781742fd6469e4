/** The file name `generatePDF` hands to the PDF engine:
    `attendance-report-{subject}-{stamp}.pdf`. */
module Export {

  import opened Text
  import opened Records

  const Prefix := "attendance-report-"
  const Extension := ".pdf"

  predicate NoWhitespace(s: string) { forall i :: 0 <= i < |s| ==> !IsWhitespace(s[i]) }

  predicate NoUpper(s: string) { forall i :: 0 <= i < |s| ==> !IsUpper(s[i]) }

  /** `s` with its leading whitespace removed. */
  function DropWhitespace(s: string): (r: string)
    ensures |r| <= |s| && r == s[|s| - |r|..]
    ensures r == [] || !IsWhitespace(r[0])
    ensures forall i :: 0 <= i < |s| - |r| ==> IsWhitespace(s[i])
  {
    if s != [] && IsWhitespace(s[0]) then DropWhitespace(s[1..]) else s
  }

  /** `s.replace(/\s+/g, '-')`: every maximal run of whitespace becomes one hyphen. */
  function CollapseWhitespace(s: string): (r: string)
    ensures NoWhitespace(r)
    ensures |r| <= |s|
    ensures r == [] <==> s == []
    decreases |s|
  {
    if s == [] then []
    else if IsWhitespace(s[0]) then "-" + CollapseWhitespace(DropWhitespace(s))
    else [s[0]] + CollapseWhitespace(s[1..])
  }

  /** `name.replace(/\s+/g, '-').toLowerCase()`. */
  function Slug(name: string): (slug: string)
    ensures NoWhitespace(slug) && NoUpper(slug)
    ensures slug == [] <==> name == []
  {
    var collapsed := CollapseWhitespace(name);
    var slug := Lower(collapsed);
    assert forall i :: 0 <= i < |slug| ==> slug[i] == LowerChar(collapsed[i]);
    slug
  }

  /** The subject part of the file name: "all-employees" when every employee
      is selected; otherwise the slug of the selected employee's name, or
      "unknown" when there is no name or it is empty (`?.` ... `|| 'unknown'`). */
  function Subject(selectedUser: string, userNames: map<string, string>): (subject: string)
    ensures NoWhitespace(subject) && NoUpper(subject) && subject != []
    ensures selectedUser == AllUsers ==> subject == "all-employees"
    ensures selectedUser != AllUsers && selectedUser !in userNames ==> subject == "unknown"
    ensures selectedUser != AllUsers && selectedUser in userNames ==>
      subject == if userNames[selectedUser] == "" then "unknown" else Slug(userNames[selectedUser])
  {
    if selectedUser == AllUsers then "all-employees"
    else if selectedUser in userNames && Slug(userNames[selectedUser]) != "" then Slug(userNames[selectedUser])
    else "unknown"
  }

  /** The `filename` option of `generatePDF`; `stamp` is the export instant
      formatted as yyyy-MM-dd-HHmm by the date library. */
  function ExportFilename(selectedUser: string, userNames: map<string, string>, stamp: string): (filename: string)
    ensures |filename| == |Prefix| + |Subject(selectedUser, userNames)| + 1 + |stamp| + |Extension|
    ensures filename[..|Prefix|] == Prefix
    ensures filename[|Prefix|..|Prefix| + |Subject(selectedUser, userNames)|] == Subject(selectedUser, userNames)
    ensures filename[|filename| - |stamp| - |Extension| - 1..] == "-" + stamp + Extension
  {
    var subject := Subject(selectedUser, userNames);
    var head := Prefix + subject;
    var tail := "-" + stamp + Extension;
    assert (head + tail)[..|head|] == head && (head + tail)[|head|..] == tail;
    assert head[..|Prefix|] == Prefix && head[|Prefix|..] == subject;
    head + tail
  }

  /** Removes every whitespace character and every hyphen. */
  function Letters(s: string): string
  {
    if s == [] then []
    else if IsWhitespace(s[0]) || s[0] == '-' then Letters(s[1..])
    else [s[0]] + Letters(s[1..])
  }

  /** The number of hyphens in `s`. */
  function Hyphens(s: string): nat
  {
    if s == [] then 0 else (if s[0] == '-' then 1 else 0) + Hyphens(s[1..])
  }

  /** The number of maximal whitespace runs in `s`. */
  function WhitespaceRuns(s: string): nat
    decreases |s|
  {
    if s == [] then 0
    else if IsWhitespace(s[0]) then 1 + WhitespaceRuns(DropWhitespace(s))
    else WhitespaceRuns(s[1..])
  }

  lemma {:induction false} DropWhitespaceInvisible(s: string)
    ensures Letters(DropWhitespace(s)) == Letters(s)
    ensures Hyphens(DropWhitespace(s)) == Hyphens(s)
    decreases |s|
  {
    if s != [] && IsWhitespace(s[0]) {
      DropWhitespaceInvisible(s[1..]);
    }
  }

  /** Collapsing loses no other character and keeps their order: besides
      whitespace and hyphens, the text is unchanged; and each whitespace run
      becomes exactly one hyphen. */
  lemma {:induction false} CollapseKeepsText(s: string)
    ensures Letters(CollapseWhitespace(s)) == Letters(s)
    ensures Hyphens(CollapseWhitespace(s)) == Hyphens(s) + WhitespaceRuns(s)
    decreases |s|
  {
    if s != [] {
      if IsWhitespace(s[0]) {
        var rest := DropWhitespace(s);
        CollapseKeepsText(rest);
        DropWhitespaceInvisible(s);
        assert ("-" + CollapseWhitespace(rest))[1..] == CollapseWhitespace(rest);
        if rest != [] {
          assert s[|s| - |rest|] == rest[0];
        }
        assert WhitespaceRuns(s) == 1 + WhitespaceRuns(rest);
      } else {
        CollapseKeepsText(s[1..]);
        assert ([s[0]] + CollapseWhitespace(s[1..]))[1..] == CollapseWhitespace(s[1..]);
      }
    }
  }

  /** A string without whitespace is left alone by the collapse. */
  lemma {:induction false} CollapseIdentity(s: string)
    requires NoWhitespace(s)
    ensures CollapseWhitespace(s) == s
    decreases |s|
  {
    if s != [] {
      CollapseIdentity(s[1..]);
    }
  }

  lemma {:induction false} LowerIdentity(s: string)
    requires NoUpper(s)
    ensures Lower(s) == s
  {
  }

  /** A slug is its own slug: building the file name again from a slug changes nothing. */
  lemma SlugIdempotent(name: string)
    ensures Slug(Slug(name)) == Slug(name)
  {
    var slug := Slug(name);
    CollapseIdentity(slug);
    LowerIdentity(slug);
  }

  lemma CollapseKeep(c: char, s: string)
    requires !IsWhitespace(c)
    ensures CollapseWhitespace([c] + s) == [c] + CollapseWhitespace(s)
  {
    assert ([c] + s)[1..] == s;
  }

  lemma CollapseSpace(c: char, s: string)
    requires IsWhitespace(c) && (s == [] || !IsWhitespace(s[0]))
    ensures CollapseWhitespace([c] + s) == "-" + CollapseWhitespace(s)
  {
    assert ([c] + s)[1..] == s;
  }

  lemma SplitHead<T>(w: seq<T>)
    requires w != []
    ensures w == [w[0]] + w[1..]
  {
  }

  lemma AppendAssoc<T>(a: seq<T>, b: seq<T>, c: seq<T>)
    ensures a + b + c == a + (b + c)
  {
  }

  /** A word without whitespace passes through the collapse unchanged. */
  lemma {:induction false} CollapseWord(w: string, s: string)
    requires NoWhitespace(w)
    ensures CollapseWhitespace(w + s) == w + CollapseWhitespace(s)
    decreases |w|
  {
    if w != [] {
      var c, rest := w[0], w[1..];
      SplitHead(w);
      AppendAssoc([c], rest, s);
      AppendAssoc([c], rest, CollapseWhitespace(s));
      CollapseWord(rest, s);
      CollapseKeep(c, rest + s);
    } else {
      assert w + s == s;
    }
  }

  lemma {:induction false} DropRun(sep: string, rest: string)
    requires forall i :: 0 <= i < |sep| ==> IsWhitespace(sep[i])
    requires rest == [] || !IsWhitespace(rest[0])
    ensures DropWhitespace(sep + rest) == rest
    decreases |sep|
  {
    if sep != [] {
      assert (sep + rest)[1..] == sep[1..] + rest;
      DropRun(sep[1..], rest);
    } else {
      assert sep + rest == rest;
    }
  }

  lemma {:induction false} LowerConcat(a: string, b: string)
    ensures Lower(a + b) == Lower(a) + Lower(b)
  {
    assert forall i :: 0 <= i < |a + b| ==> (a + b)[i] == if i < |a| then a[i] else b[i - |a|];
  }

  /** A whitespace run, followed by text that does not start with
      whitespace, collapses to one hyphen in front of that text's collapse. */
  lemma CollapseRun(sep: string, rest: string)
    requires sep != [] && forall i :: 0 <= i < |sep| ==> IsWhitespace(sep[i])
    requires rest == [] || !IsWhitespace(rest[0])
    ensures CollapseWhitespace(sep + rest) == "-" + CollapseWhitespace(rest)
  {
    assert (sep + rest)[0] == sep[0];
    DropRun(sep, rest);
  }

  lemma CollapseTwoWords(first: string, sep: string, last: string)
    requires NoWhitespace(first) && NoWhitespace(last)
    requires sep != [] && forall i :: 0 <= i < |sep| ==> IsWhitespace(sep[i])
    ensures CollapseWhitespace(first + (sep + last)) == first + ("-" + last)
  {
    CollapseWord(first, sep + last);
    CollapseRun(sep, last);
    CollapseIdentity(last);
  }

  /** Two words separated by any run of whitespace, such as "Jane Doe",
      become the lowercased words joined by a single hyphen: "jane-doe". */
  lemma SlugTwoWords(first: string, sep: string, last: string)
    requires NoWhitespace(first) && NoWhitespace(last)
    requires sep != [] && forall i :: 0 <= i < |sep| ==> IsWhitespace(sep[i])
    ensures Slug(first + (sep + last)) == Lower(first) + ("-" + Lower(last))
  {
    CollapseTwoWords(first, sep, last);
    LowerConcat(first, "-" + last);
    LowerConcat("-", last);
    assert Lower("-") == "-";
  }

  /** The file name for a selected employee shown as `first sep last`. */
  lemma FilenameForTwoWordName(selectedUser: string, userNames: map<string, string>, stamp: string,
                               first: string, sep: string, last: string)
    requires selectedUser != AllUsers && selectedUser in userNames && userNames[selectedUser] == first + (sep + last)
    requires first != [] && NoWhitespace(first) && NoWhitespace(last)
    requires sep != [] && forall i :: 0 <= i < |sep| ==> IsWhitespace(sep[i])
    ensures ExportFilename(selectedUser, userNames, stamp) ==
      Prefix + (Lower(first) + ("-" + Lower(last))) + ("-" + stamp + Extension)
  {
    SlugTwoWords(first, sep, last);
    assert Subject(selectedUser, userNames) == Lower(first) + ("-" + Lower(last));
  }

  lemma JaneDoeWords()
    ensures NoWhitespace("Jane") && NoWhitespace("Doe") && IsWhitespace(' ')
  {
  }

  lemma JaneDoeLower()
    ensures Lower("Jane") == "jane" && Lower("Doe") == "doe"
  {
  }

  lemma JaneDoeSlug()
    ensures Slug("Jane Doe") == "jane-doe"
  {
    assert "Jane Doe" == "Jane" + (" " + "Doe");
    JaneDoeWords();
    SlugTwoWords("Jane", " ", "Doe");
    JaneDoeLower();
    assert "jane" + ("-" + "doe") == "jane-doe";
  }

  /** Display name "Jane Doe", exported at any instant. */
  lemma JaneDoeExample(userNames: map<string, string>, stamp: string)
    requires "u1" in userNames && userNames["u1"] == "Jane Doe"
    ensures ExportFilename("u1", userNames, stamp) == Prefix + "jane-doe" + ("-" + stamp + Extension)
  {
    JaneDoeSlug();
    assert Subject("u1", userNames) == "jane-doe";
  }
}
