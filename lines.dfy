/**
 * The text format of the member file: Ruby's `String#split("\n")` and
 * `Array#join("\n")` on sequences of characters.
 *
 * `split` cuts the text at every newline into fields and then drops the
 * empty fields at the end, so `"A\nB\n"` gives `["A", "B"]`, `""` gives
 * `[]`, and a leading or inner empty field is kept (`"\nA"` gives `["", "A"]`).
 */
module Lines {

  /** A line as the file stores it: it holds no newline. */
  predicate IsLine(l: string)
  {
    '\n' !in l
  }

  /** Every element is a line. */
  predicate AllLines(ls: seq<string>)
  {
    forall i :: 0 <= i < |ls| ==> IsLine(ls[i])
  }

  /** What `split` can return: lines, the last of them non-empty. */
  predicate WellFormed(ls: seq<string>)
  {
    AllLines(ls) && (ls == [] || ls[|ls| - 1] != [])
  }

  /** `ls.join("\n")`. */
  function Join(ls: seq<string>): (r: string)
    ensures ls == [] ==> r == []
    ensures |ls| == 1 ==> r == ls[0]
  {
    if ls == [] then []
    else if |ls| == 1 then ls[0]
    else ls[0] + "\n" + Join(ls[1..])
  }

  /** All fields of `s` between newlines, the empty ones included. */
  function Fields(s: string): (r: seq<string>)
    ensures |r| >= 1
    ensures AllLines(r)
    ensures Join(r) == s
  {
    if s == [] then [[]]
    else
      var rest := Fields(s[1..]);
      if s[0] == '\n' then
        assert Join([[]] + rest) == "\n" + Join(rest);
        [[]] + rest
      else
        var r := [[s[0]] + rest[0]] + rest[1..];
        assert Join(r) == [s[0]] + Join(rest) by {
          if |rest| > 1 {
            assert rest == [rest[0]] + rest[1..];
            assert r[1..] == rest[1..];
          }
        }
        r
  }

  /** `ls` with its empty elements at the end removed. */
  function DropTrailingEmpty(ls: seq<string>): (r: seq<string>)
    ensures |r| <= |ls| && r == ls[..|r|]
    ensures r == [] || r[|r| - 1] != []
    ensures forall i :: |r| <= i < |ls| ==> ls[i] == []
  {
    if ls == [] then []
    else if ls[|ls| - 1] == [] then DropTrailingEmpty(ls[..|ls| - 1])
    else ls
  }

  /** `s.split("\n")`. */
  function Split(s: string): (r: seq<string>)
    ensures WellFormed(r)
  {
    DropTrailingEmpty(Fields(s))
  }

  /** `s` with the newlines at its end removed. */
  function StripTrailingNewlines(s: string): (r: string)
    ensures |r| <= |s| && r == s[..|r|]
    ensures r == [] || r[|r| - 1] != '\n'
    ensures forall i :: |r| <= i < |s| ==> s[i] == '\n'
  {
    if s != [] && s[|s| - 1] == '\n' then StripTrailingNewlines(s[..|s| - 1]) else s
  }

  lemma {:induction false} JoinSnoc(ls: seq<string>, l: string)
    requires ls != []
    ensures Join(ls + [l]) == Join(ls) + "\n" + l
  {
    if |ls| == 1 {
      assert ls + [l] == [ls[0], l];
    } else {
      assert (ls + [l])[1..] == ls[1..] + [l];
      JoinSnoc(ls[1..], l);
    }
  }

  /** The joined text ends with the last element. */
  lemma {:induction false} JoinLast(ls: seq<string>)
    requires ls != []
    ensures |Join(ls)| >= |ls[|ls| - 1]|
    ensures Join(ls)[|Join(ls)| - |ls[|ls| - 1]|..] == ls[|ls| - 1]
  {
    if |ls| > 1 {
      JoinLast(ls[1..]);
    }
  }

  /** A well-formed list joins to the empty text only when it is empty. */
  lemma JoinEmpty(ls: seq<string>)
    requires WellFormed(ls)
    ensures Join(ls) == [] <==> ls == []
  {
    if ls != [] {
      JoinLast(ls);
    }
  }

  /** Extending the last line extends the joined text by the same characters. */
  lemma {:induction false} JoinGlue(ls: seq<string>, tail: string)
    requires ls != []
    ensures Join(ls[..|ls| - 1] + [ls[|ls| - 1] + tail]) == Join(ls) + tail
  {
    var init, last := ls[..|ls| - 1], ls[|ls| - 1];
    if init == [] {
      assert ls == [last];
      assert init + [last + tail] == [last + tail];
    } else {
      assert ls == init + [last];
      JoinSnoc(init, last);
      JoinSnoc(init, last + tail);
      var j := Join(init);
      assert j + "\n" + (last + tail) == (j + "\n" + last) + tail;
    }
  }

  /** Extending the last line by a line keeps a well-formed list well-formed. */
  lemma GlueWellFormed(ls: seq<string>, tail: string)
    requires WellFormed(ls) && ls != [] && IsLine(tail)
    ensures WellFormed(ls[..|ls| - 1] + [ls[|ls| - 1] + tail])
  {
    var glued := ls[..|ls| - 1] + [ls[|ls| - 1] + tail];
    assert forall i :: 0 <= i < |glued| - 1 ==> glued[i] == ls[i];
    assert IsLine(ls[|ls| - 1] + tail);
  }

  /** Without an empty last element, the joined text does not end in a newline. */
  lemma {:induction false} JoinEnd(ls: seq<string>)
    requires WellFormed(ls)
    ensures Join(ls) == [] || Join(ls)[|Join(ls)| - 1] != '\n'
  {
    if |ls| > 1 {
      assert ls[1..][|ls[1..]| - 1] == ls[|ls| - 1];
      JoinEnd(ls[1..]);
    } else if |ls| == 1 {
      assert IsLine(ls[0]);
    }
  }

  lemma {:induction false} JoinDropTrailingEmpty(ls: seq<string>)
    requires ls != [] && AllLines(ls)
    ensures Join(DropTrailingEmpty(ls)) == StripTrailingNewlines(Join(ls))
  {
    var last := ls[|ls| - 1];
    var init := ls[..|ls| - 1];
    assert ls == init + [last];
    if last != [] {
      JoinEnd(ls);
    } else if |ls| > 1 {
      JoinSnoc(init, last);
      assert Join(ls) == Join(init) + "\n";
      assert Join(ls)[..|Join(ls)| - 1] == Join(init);
      JoinDropTrailingEmpty(init);
    }
  }

  /** The names read back are the text up to its trailing newlines, cut at each newline. */
  lemma SplitSpec(s: string)
    ensures WellFormed(Split(s))
    ensures Join(Split(s)) == StripTrailingNewlines(s)
  {
    var fs := Fields(s);
    var r := DropTrailingEmpty(fs);
    assert forall i :: 0 <= i < |r| ==> r[i] == fs[i];
    JoinDropTrailingEmpty(fs);
  }

  /** A line followed by a newline contributes exactly one field. */
  lemma {:induction false} FieldsCons(l: string, t: string)
    requires IsLine(l)
    ensures Fields(l + "\n" + t) == [l] + Fields(t)
  {
    if l == [] {
      assert (l + "\n" + t)[1..] == t;
    } else {
      assert (l + "\n" + t)[1..] == l[1..] + "\n" + t;
      FieldsCons(l[1..], t);
      assert [l[0]] + l[1..] == l;
    }
  }

  lemma {:induction false} FieldsLine(l: string)
    requires IsLine(l)
    ensures Fields(l) == [l]
  {
    if l != [] {
      FieldsLine(l[1..]);
      assert [l[0]] + l[1..] == l;
    }
  }

  lemma {:induction false} FieldsJoin(ls: seq<string>)
    requires ls != [] && AllLines(ls)
    ensures Fields(Join(ls)) == ls
  {
    if |ls| == 1 {
      FieldsLine(ls[0]);
    } else {
      FieldsJoin(ls[1..]);
      FieldsCons(ls[0], Join(ls[1..]));
    }
  }

  /** Storing lines and reading them back loses exactly the empty lines at the end. */
  lemma SplitJoin(ls: seq<string>)
    requires AllLines(ls)
    ensures Split(Join(ls)) == DropTrailingEmpty(ls)
  {
    if ls != [] {
      FieldsJoin(ls);
    }
  }

  /** Round trip: lines with a non-empty last line are read back unchanged. */
  lemma SplitJoinRoundTrip(ls: seq<string>)
    requires WellFormed(ls)
    ensures Split(Join(ls)) == ls
  {
    SplitJoin(ls);
  }

  /** Writing back what was read reproduces the text exactly when it has no trailing newline. */
  lemma JoinSplitIdentity(s: string)
    ensures Join(Split(s)) == s <==> (s == [] || s[|s| - 1] != '\n')
  {
    SplitSpec(s);
  }

  /** Once written back, reading and writing again changes nothing. */
  lemma JoinSplitIdempotent(s: string)
    ensures Join(Split(Join(Split(s)))) == Join(Split(s))
  {
    SplitSpec(s);
    SplitJoinRoundTrip(Split(s));
  }
}
