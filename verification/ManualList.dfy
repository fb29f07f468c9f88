/** The manual allow and deny lists: a file edited one rule at a time, and read back as a list. */
module ManualLists {
  import opened Wrappers
  import opened Text
  import opened ListRules

  /** A requested domain as it is spelled in the file. */
  function Spelling(request: string): string {
    Lower(Trim(request))
  }

  predicate LinesMatching(lines: seq<string>, text: string) {
    exists l :: l in lines && Trim(l) == text
  }

  function WithoutMatching(lines: seq<string>, text: string): seq<string> {
    if lines == [] then []
    else
      var last := lines[|lines| - 1];
      WithoutMatching(lines[..|lines| - 1], text) + if Trim(last) == text then [] else [last]
  }

  /** The file after an append; None when the domain is refused. */
  function Appended(file: Option<string>, request: string): Option<Option<string>> {
    var text := Spelling(request);
    if Normalize(text).None? then None
    else
      match file
      case None => Some(Some(text + "\n"))
      case Some(existing) =>
        if LinesMatching(Lines(existing), text) then Some(file) else Some(Some(existing + text + "\n"))
  }

  function Removed(file: Option<string>, request: string): Option<string> {
    match file
    case None => None
    case Some(existing) => Some(Join(WithoutMatching(Lines(existing), Spelling(request)), "\n") + "\n")
  }

  /** One manual list on disk; None while the file does not exist. */
  class ManualList {
    var file: Option<string>

    constructor ()
      ensures file == None
    {
      file := None;
    }

    method Append(request: string) returns (ok: bool)
      modifies this
      ensures ok <==> Normalize(Spelling(request)).Some?
      ensures Some(file) == if ok then Appended(old(file), request) else Some(old(file))
    {
      var text := Spelling(request);
      if Normalize(text).None? {
        return false;
      }
      if file.Some? {
        var present := Present(Lines(file.value), text);
        if present {
          return true;
        }
      }
      file := Some(match file case None => text + "\n" case Some(existing) => existing + text + "\n");
      return true;
    }

    method Present(lines: seq<string>, text: string) returns (found: bool)
      ensures found == LinesMatching(lines, text)
    {
      for i := 0 to |lines|
        invariant forall j :: 0 <= j < i ==> Trim(lines[j]) != text
      {
        if Trim(lines[i]) == text {
          return true;
        }
      }
      return false;
    }

    method Remove(request: string)
      modifies this
      ensures file == Removed(old(file), request)
    {
      var text := Spelling(request);
      if file.None? {
        return;
      }
      var lines := Lines(file.value);
      var kept := [];
      for i := 0 to |lines|
        invariant kept == WithoutMatching(lines[..i], text)
      {
        assert lines[..i + 1][..i] == lines[..i];
        if Trim(lines[i]) != text {
          kept := kept + [lines[i]];
        }
      }
      assert lines[..|lines|] == lines;
      file := Some(Join(kept, "\n") + "\n");
    }
  }

  // ---- the file as a list of lines ---------------------------------------

  function Unlines(lines: seq<string>): string {
    if lines == [] then "" else lines[0] + "\n" + Unlines(lines[1..])
  }

  predicate PlainLine(l: string) {
    NoSpaces(l)
  }

  lemma {:induction false} LinesUnlines(lines: seq<string>)
    requires forall l :: l in lines ==> PlainLine(l)
    ensures Lines(Unlines(lines)) == lines
  {
    if lines != [] {
      var l, rest := lines[0], Unlines(lines[1..]);
      var s := Unlines(lines);
      assert l in lines && PlainLine(l);
      assert IsSpace('\n') && IsSpace('\r');
      assert s == l + "\n" + rest;
      var i := IndexOf(s, {'\n'});
      assert s[|l|] == '\n';
      assert forall j :: 0 <= j < |l| ==> s[j] == l[j] && l[j] in l && s[j] != '\n';
      assert i == |l|;
      assert s[..i] == l && s[i + 1..] == rest;
      assert StripCr(l) == l by { if l != "" { assert l[|l| - 1] in l; } }
      LinesUnlines(lines[1..]);
    }
  }

  lemma {:induction false} UnlinesAppend(lines: seq<string>, l: string)
    ensures Unlines(lines + [l]) == Unlines(lines) + l + "\n"
  {
    if lines == [] {
      assert [] + [l] == [l] && [l][1..] == [];
      assert Unlines([l]) == l + "\n" + "";
    } else {
      assert (lines + [l])[1..] == lines[1..] + [l];
      UnlinesAppend(lines[1..], l);
      assert Unlines(lines + [l]) == lines[0] + "\n" + (Unlines(lines[1..]) + l + "\n");
    }
  }

  lemma {:induction false} JoinIsUnlines(lines: seq<string>)
    ensures Join(lines, "\n") + "\n" == Unlines(if lines == [] then [""] else lines)
  {
    if lines == [] {
      assert [""][1..] == [];
      assert Unlines([""]) == "" + "\n" + "";
    } else if |lines| == 1 {
      assert lines[1..] == [];
      assert Unlines(lines) == lines[0] + "\n" + "";
    } else {
      JoinIsUnlines(lines[1..]);
      assert Join(lines, "\n") + "\n" == lines[0] + "\n" + (Join(lines[1..], "\n") + "\n");
    }
  }
}
