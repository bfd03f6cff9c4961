/** Python's `str.split()` without a separator, and the rule create_user and
    update_user use to derive `first_name` and `last_name` from a full name. */
module Names {
  import opened Messages

  /** Python's `str.isspace()` for one character. */
  predicate IsSpace(c: char)
  {
    var k := c as int;
    || 0x09 <= k <= 0x0D
    || 0x1C <= k <= 0x20
    || k == 0x85 || k == 0xA0 || k == 0x1680
    || 0x2000 <= k <= 0x200A
    || k == 0x2028 || k == 0x2029 || k == 0x202F || k == 0x205F || k == 0x3000
  }

  predicate AllSpace(s: string)
  {
    forall i :: 0 <= i < |s| ==> IsSpace(s[i])
  }

  /** A token of `split()`: non-empty and free of whitespace. */
  predicate IsWord(w: string)
  {
    w != [] && forall i :: 0 <= i < |w| ==> !IsSpace(w[i])
  }

  predicate AllWords(ws: seq<string>)
  {
    forall i :: 0 <= i < |ws| ==> IsWord(ws[i])
  }

  /** The length of the run of non-whitespace that starts s. */
  function LeadingWord(s: string): (k: nat)
    ensures k <= |s|
    ensures s != [] && !IsSpace(s[0]) ==> k >= 1
    ensures forall i :: 0 <= i < k ==> !IsSpace(s[i])
    ensures k < |s| ==> IsSpace(s[k])
  {
    if s == [] || IsSpace(s[0]) then 0 else 1 + LeadingWord(s[1..])
  }

  /** `s.split()`: the maximal whitespace-free runs of s, in order. Whitespace is
      skipped one character at a time; a word is taken whole. */
  function Split(s: string): (ws: seq<string>)
    ensures AllWords(ws)
    ensures ws == [] <==> AllSpace(s)
    decreases |s|
  {
    if s == [] then []
    else if IsSpace(s[0]) then
      SpaceThen(s);
      Split(s[1..])
    else
      var n := LeadingWord(s);
      WordThen(s, n);
      [s[..n]] + Split(s[n..])
  }

  /** A string starting with whitespace is all whitespace exactly when its tail is. */
  lemma SpaceThen(s: string)
    requires s != [] && IsSpace(s[0])
    ensures AllSpace(s) <==> AllSpace(s[1..])
  {
    assert forall i :: 0 < i < |s| ==> s[i] == s[1..][i - 1];
  }

  /** A string starting with non-whitespace starts with a word and is not all
      whitespace. */
  lemma WordThen(s: string, n: nat)
    requires s != [] && !IsSpace(s[0]) && n == LeadingWord(s)
    ensures 1 <= n <= |s| && IsWord(s[..n]) && !AllSpace(s)
  {
    assert forall i :: 0 <= i < n ==> s[..n][i] == s[i];
  }

  /** `" ".join(ws)`: the words separated by single spaces. */
  function Join(ws: seq<string>): string
  {
    if ws == [] then "" else if |ws| == 1 then ws[0] else ws[0] + " " + Join(ws[1..])
  }

  /** Whitespace in front of a string does not change its split. */
  lemma SplitAfterSpace(c: char, s: string)
    requires IsSpace(c)
    ensures Split([c] + s) == Split(s)
  {
    assert ([c] + s)[1..] == s;
  }

  /** The word a string starts with, when a space or the end follows it. */
  lemma LeadingWordOf(w: string, rest: string)
    requires IsWord(w)
    requires rest == [] || IsSpace(rest[0])
    ensures LeadingWord(w + rest) == |w|
  {
    var s := w + rest;
    assert forall i :: 0 <= i < |w| ==> s[i] == w[i];
    assert |w| < |s| ==> s[|w|] == rest[0];
  }

  /** A string that starts with a word followed by whitespace or the end splits
      into that word and the split of the rest. */
  lemma SplitWordThen(w: string, rest: string)
    requires IsWord(w)
    requires rest == [] || IsSpace(rest[0])
    ensures Split(w + rest) == [w] + Split(rest)
  {
    var s := w + rest;
    LeadingWordOf(w, rest);
    assert s[0] == w[0];
    assert s[..|w|] == w && s[|w|..] == rest;
  }

  /** Splitting undoes joining: `" ".join(ws).split() == ws` for whitespace-free words. */
  lemma {:induction false} SplitJoin(ws: seq<string>)
    requires AllWords(ws)
    ensures Split(Join(ws)) == ws
  {
    if ws == [] {
      assert Split("") == [];
    } else if |ws| == 1 {
      SplitWordThen(ws[0], "");
      assert ws[0] + "" == ws[0];
      assert Split("") == [];
    } else {
      var rest := " " + Join(ws[1..]);
      assert Join(ws) == ws[0] + rest;
      SplitWordThen(ws[0], rest);
      SplitAfterSpace(' ', Join(ws[1..]));
      SplitJoin(ws[1..]);
    }
  }

  /** A run of whitespace in front of a string does not change its split. */
  lemma {:induction false} SplitAfterSpaces(sp: string, s: string)
    requires AllSpace(sp)
    ensures Split(sp + s) == Split(s)
  {
    if sp != [] {
      assert sp + s == [sp[0]] + (sp[1..] + s);
      SplitAfterSpaces(sp[1..], s);
      SplitAfterSpace(sp[0], sp[1..] + s);
    } else {
      assert sp + s == s;
    }
  }

  /** Any non-empty run of whitespace between two parts separates them as a
      single space would: the word before it is one token. */
  lemma SplitWordSpaces(w: string, sp: string, rest: string)
    requires IsWord(w) && sp != [] && AllSpace(sp)
    ensures Split(w + sp + rest) == [w] + Split(rest)
  {
    assert w + sp + rest == w + (sp + rest);
    assert (sp + rest)[0] == sp[0];
    SplitWordThen(w, sp + rest);
    SplitAfterSpaces(sp, rest);
  }

  /** Whitespace after a string does not change its split. */
  lemma {:induction false} SplitBeforeSpaces(s: string, sp: string)
    requires AllSpace(sp)
    ensures Split(s + sp) == Split(s)
    decreases |s|
  {
    if s == [] {
      assert s + sp == sp;
    } else if IsSpace(s[0]) {
      assert (s + sp)[0] == s[0] && (s + sp)[1..] == s[1..] + sp;
      SplitBeforeSpaces(s[1..], sp);
    } else {
      var n := LeadingWord(s);
      WordThen(s, n);
      var w, tail := s[..n], s[n..];
      assert s + sp == w + (tail + sp) && s == w + tail;
      assert tail + sp != [] ==> (tail + sp)[0] == (if tail != [] then tail[0] else sp[0]);
      SplitWordThen(w, tail + sp);
      SplitWordThen(w, tail);
      SplitBeforeSpaces(tail, sp);
    }
  }

  /** The `first_name` and `last_name` a full name yields. */
  datatype NameParts = NameParts(first: string, last: string)

  /** The name-splitting rule of create_user and update_user. The first name is the
      first token of the submitted name, read as "Unknown" when the field is absent;
      the last name is the last token when the name (read as "" when absent) has at
      least two tokens, and "" otherwise. None where Python raises: a name that is
      not a string has no split method, and a name with no token has no first token. */
  function SplitName(body: Body): (r: Option<NameParts>)
    ensures r.Some? <==> ("name" !in body || (body["name"].JStr? && !AllSpace(body["name"].s)))
    ensures "name" !in body ==> r == Some(NameParts("Unknown", ""))
    ensures r.Some? ==> IsWord(r.value.first) && (r.value.last == "" || IsWord(r.value.last))
    ensures "name" in body && r.Some? ==>
      var ws := Split(body["name"].s);
      r.value == NameParts(ws[0], if |ws| > 1 then ws[|ws| - 1] else "")
  {
    var full := FieldOr(body, "name", JStr("Unknown"));
    var probe := FieldOr(body, "name", JStr(""));
    if !full.JStr? then None
    else
      var ws := Split(full.s);
      if ws == [] then None
      else
        assert "name" !in body ==> ws == ["Unknown"] && Split(probe.s) == [] by {
          if "name" !in body {
            SplitUnknown();
          }
        }
        Some(NameParts(ws[0], if |Split(probe.s)| > 1 then ws[|ws| - 1] else ""))
  }

  lemma SplitUnknown()
    ensures Split("Unknown") == ["Unknown"]
    ensures Split("") == []
  {
    assert IsWord("Unknown");
    assert Join(["Unknown"]) == "Unknown";
    SplitJoin(["Unknown"]);
  }

  /** A name made of whitespace-free words separated by single spaces splits into
      its first word and, when there are several, its last word. */
  lemma SplitNameOfWords(body: Body, ws: seq<string>)
    requires ws != [] && AllWords(ws)
    requires "name" in body && body["name"] == JStr(Join(ws))
    ensures SplitName(body) == Some(NameParts(ws[0], if |ws| > 1 then ws[|ws| - 1] else ""))
  {
    SplitJoin(ws);
  }

  /** Whitespace in front of a full name does not change the names derived from it. */
  lemma SplitNameIgnoresLeadingSpace(body: Body, c: char, s: string)
    requires IsSpace(c)
    requires "name" in body && body["name"] == JStr([c] + s)
    ensures SplitName(body) == SplitName(body["name" := JStr(s)])
  {
    SplitAfterSpace(c, s);
  }

  /** The create request of the test suite: "Adam Majcher" becomes first name
      "Adam" and last name "Majcher". */
  lemma SplitNameAdamMajcher()
    ensures SplitName(map["name" := JStr("Adam Majcher"), "job" := JStr("QA Engineer")])
         == Some(NameParts("Adam", "Majcher"))
  {
    var ws := ["Adam", "Majcher"];
    assert IsWord(ws[0]) && IsWord(ws[1]);
    assert Join(ws) == "Adam Majcher";
    SplitNameOfWords(map["name" := JStr("Adam Majcher"), "job" := JStr("QA Engineer")], ws);
  }
}
