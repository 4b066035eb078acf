/** The `--filename-extensions` option: a comma-separated list of extensions
    without their leading dot, turned into the list of suffixes to look for. */
module Extensions {

  /** The option's default value. */
  const DefaultExtensions: string := "bin,cue"

  /** The items of `parts` with `sep` between neighbours (Python's `sep.join`). */
  function Join(parts: seq<string>, sep: char): string
    requires |parts| >= 1
  {
    if |parts| == 1 then parts[0] else parts[0] + [sep] + Join(parts[1..], sep)
  }

  /** Python's `s.split(sep)` with an explicit one-character separator: the
      maximal separator-free pieces, an empty string giving one empty piece. */
  function Split(s: string, sep: char): (parts: seq<string>)
    ensures |parts| >= 1
    ensures forall i | 0 <= i < |parts| :: sep !in parts[i]
    decreases |s|
  {
    if |s| == 0 then [""]
    else
      var rest := Split(s[1..], sep);
      if s[0] == sep then [""] + rest
      else [[s[0]] + rest[0]] + rest[1..]
  }

  /** Joining the pieces of a split gives back the original string. */
  lemma {:induction false} JoinSplit(s: string, sep: char)
    ensures Join(Split(s, sep), sep) == s
    decreases |s|
  {
    if |s| > 0 {
      var rest := Split(s[1..], sep);
      JoinSplit(s[1..], sep);
      if s[0] == sep {
        assert ([""] + rest)[1..] == rest;
      } else {
        var parts := [[s[0]] + rest[0]] + rest[1..];
        if |rest| == 1 {
          assert parts == [[s[0]] + rest[0]];
        } else {
          assert parts[1..] == rest[1..];
          assert Join(rest, sep) == rest[0] + [sep] + Join(rest[1..], sep);
          assert s == [s[0]] + s[1..];
        }
      }
    }
  }

  /** A separator-free string is a single piece. */
  lemma {:induction false} SplitWord(w: string, sep: char)
    requires sep !in w
    ensures Split(w, sep) == [w]
    decreases |w|
  {
    if |w| > 0 {
      SplitWord(w[1..], sep);
      assert w == [w[0]] + w[1..];
    }
  }

  /** A separator-free word followed by a separator is split off as the first piece. */
  lemma {:induction false} SplitAfterWord(w: string, sep: char, t: string)
    requires sep !in w
    ensures Split(w + [sep] + t, sep) == [w] + Split(t, sep)
    decreases |w|
  {
    var s := w + [sep] + t;
    if |w| == 0 {
      assert s[0] == sep && s[1..] == t;
    } else {
      assert s[0] == w[0] && s[1..] == w[1..] + [sep] + t;
      SplitAfterWord(w[1..], sep, t);
      assert [w[0]] + w[1..] == w;
    }
  }

  /** Splitting the join of separator-free pieces gives back the pieces. */
  lemma {:induction false} SplitJoin(parts: seq<string>, sep: char)
    requires |parts| >= 1
    requires forall i | 0 <= i < |parts| :: sep !in parts[i]
    ensures Split(Join(parts, sep), sep) == parts
    decreases |parts|
  {
    if |parts| == 1 {
      SplitWord(parts[0], sep);
    } else {
      SplitJoin(parts[1..], sep);
      SplitAfterWord(parts[0], sep, Join(parts[1..], sep));
      assert [parts[0]] + parts[1..] == parts;
    }
  }

  /** Each extension with its leading dot removed. */
  function Undotted(exts: seq<string>): (items: seq<string>)
    requires forall i | 0 <= i < |exts| :: |exts[i]| >= 1
  {
    seq(|exts|, i requires 0 <= i < |exts| => exts[i][1..])
  }

  /** Lines 85-86: one `"." + item` per comma-separated item of the option.
      Removing the dots and joining with commas gives back the option. */
  function ExtensionList(option: string): (exts: seq<string>)
    ensures |exts| >= 1
    ensures forall i | 0 <= i < |exts| :: |exts[i]| >= 1 && exts[i][0] == '.' && ',' !in exts[i]
    ensures Join(Undotted(exts), ',') == option
  {
    var items := Split(option, ',');
    var exts := seq(|items|, i requires 0 <= i < |items| => "." + items[i]);
    assert Undotted(exts) == items;
    JoinSplit(option, ',');
    exts
  }

  /** The contract of ExtensionList pins the list down: any dotted, comma-free
      list whose undotted items join to the option is the list built from it. */
  lemma ExtensionListDetermined(option: string, exts: seq<string>)
    requires |exts| >= 1
    requires forall i | 0 <= i < |exts| :: |exts[i]| >= 1 && exts[i][0] == '.' && ',' !in exts[i]
    requires Join(Undotted(exts), ',') == option
    ensures exts == ExtensionList(option)
  {
    var items := Undotted(exts);
    forall i | 0 <= i < |items|
      ensures ',' !in items[i]
    {
      assert forall c :: c in items[i] ==> c in exts[i];
    }
    SplitJoin(items, ',');
    var built := ExtensionList(option);
    assert |built| == |exts|;
    forall i | 0 <= i < |exts|
      ensures built[i] == exts[i]
    {
      assert exts[i] == [exts[i][0]] + exts[i][1..];
    }
  }

  /** The default option gives the two suffixes `.bin` and `.cue`. */
  lemma DefaultExtensionList()
    ensures ExtensionList(DefaultExtensions) == [".bin", ".cue"]
  {
    var exts := [".bin", ".cue"];
    assert Undotted(exts) == ["bin", "cue"] by {
      assert exts[0][1..] == "bin" && exts[1][1..] == "cue";
    }
    assert Join(["bin", "cue"], ',') == DefaultExtensions;
    ExtensionListDetermined(DefaultExtensions, exts);
  }
}
