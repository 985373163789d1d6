/**
 * The suggested replacement name of the `snakecasejs` rule (plugin.js:24-27):
 *   name.replace(/([A-Z])/g, '_$1').toLowerCase().replace(/__+/g, '_')
 * Each pass is a function over the characters of the name.
 */
module Transliteration {

  import opened CaseClassifier

  /** Pass 1, `.replace(/([A-Z])/g, '_$1')`: an underscore before every ASCII upper-case letter. */
  function InsertUnderscores(s: string): (r: string)
    ensures |r| >= |s|
  {
    if s == [] then []
    else (if IsUpper(s[0]) then ['_', s[0]] else [s[0]]) + InsertUnderscores(s[1..])
  }

  /** Lower-casing of one character, restricted to ASCII. */
  function Lowered(c: char): (d: char)
    ensures !IsUpper(d)
    ensures d == '_' <==> c == '_'
    ensures IsUpper(c) || IsLower(c) ==> IsLower(d)
    ensures IsUpper(c) ==> d as int - 'a' as int == c as int - 'A' as int
    ensures !IsUpper(c) ==> d == c
  {
    if IsUpper(c) then (c as int - 'A' as int + 'a' as int) as char else c
  }

  /** The number of ASCII upper-case letters in `s`. */
  function CountUpper(s: string): nat {
    if s == [] then 0 else (if IsUpper(s[0]) then 1 else 0) + CountUpper(s[1..])
  }

  /** `s` with every underscore that directly precedes an ASCII upper-case letter deleted. */
  function Unmark(s: string): string
    decreases |s|
  {
    if s == [] then []
    else if |s| >= 2 && s[0] == '_' && IsUpper(s[1]) then Unmark(s[1..])
    else [s[0]] + Unmark(s[1..])
  }

  /** Pass 1 adds exactly one character per upper-case letter. */
  lemma {:induction false} InsertUnderscoresLength(s: string)
    ensures |InsertUnderscores(s)| == |s| + CountUpper(s)
    decreases |s|
  {
    if s != [] {
      InsertUnderscoresLength(s[1..]);
    }
  }

  /** Deleting the underscore in front of each capital undoes pass 1: it only inserts those. */
  lemma {:induction false} UnmarkInsert(s: string)
    ensures Unmark(InsertUnderscores(s)) == s
    decreases |s|
  {
    if s != [] {
      var rest := InsertUnderscores(s[1..]);
      UnmarkInsert(s[1..]);
      if |s| >= 2 {
        assert rest == (if IsUpper(s[1]) then ['_', s[1]] else [s[1]]) + InsertUnderscores(s[2..]);
        assert !IsUpper(rest[0]);
      }
      if IsUpper(s[0]) {
        assert InsertUnderscores(s) == ['_', s[0]] + rest;
        assert (['_', s[0]] + rest)[1..] == [s[0]] + rest;
        assert ([s[0]] + rest)[1..] == rest;
      } else {
        assert InsertUnderscores(s) == [s[0]] + rest;
        assert ([s[0]] + rest)[1..] == rest;
      }
    }
  }

  /** Pass 2, `.toLowerCase()`: every character lowered, in place. */
  function ToLower(s: string): string {
    seq(|s|, i requires 0 <= i < |s| => Lowered(s[i]))
  }

  /**
   * Pass 3, `.replace(/__+/g, '_')`: scanning left to right, a run of two or
   * more underscores is replaced by one underscore; every other character is
   * copied.
   */
  function CollapseUnderscores(s: string): (r: string)
    ensures |r| <= |s|
    ensures |s| > 0 ==> |r| > 0 && r[0] == s[0]
    decreases |s|
  {
    if |s| >= 2 && s[0] == '_' && s[1] == '_' then
      var n := LeadingUnderscores(s);
      assert n >= 2;
      "_" + CollapseUnderscores(s[n..])
    else if s == [] then []
    else [s[0]] + CollapseUnderscores(s[1..])
  }

  /** The whole chain: the replacement text used for every edit of a fix. */
  function SnakeName(name: string): (r: string)
    ensures NoDoubleUnderscore(r)
    ensures forall c :: c in r ==> !IsUpper(c)
  {
    var lowered := ToLower(InsertUnderscores(name));
    assert forall c :: c in lowered ==> !IsUpper(c);
    CollapseKeepsCharacters(lowered);
    CollapseRemovesDoubles(lowered);
    CollapseUnderscores(lowered)
  }

  /** Pass 3 only deletes characters: everything in its output was in its input. */
  lemma {:induction false} CollapseKeepsCharacters(s: string)
    ensures forall c :: c in CollapseUnderscores(s) ==> c in s
    decreases |s|
  {
    if |s| >= 2 && s[0] == '_' && s[1] == '_' {
      var n := LeadingUnderscores(s);
      CollapseKeepsCharacters(s[n..]);
      assert forall c :: c in s[n..] ==> c in s;
    } else if s != [] {
      CollapseKeepsCharacters(s[1..]);
      assert forall c :: c in s[1..] ==> c in s;
    }
  }

  /** No two underscores in a row survive pass 3. */
  lemma {:induction false} CollapseRemovesDoubles(s: string)
    ensures NoDoubleUnderscore(CollapseUnderscores(s))
    decreases |s|
  {
    if |s| >= 2 && s[0] == '_' && s[1] == '_' {
      var n := LeadingUnderscores(s);
      CollapseRemovesDoubles(s[n..]);
      var rest := CollapseUnderscores(s[n..]);
      assert CollapseUnderscores(s) == "_" + rest;
      assert |rest| > 0 ==> rest[0] == s[n] && s[n] != '_';
    } else if s != [] {
      CollapseRemovesDoubles(s[1..]);
      var rest := CollapseUnderscores(s[1..]);
      assert CollapseUnderscores(s) == [s[0]] + rest;
      if s[0] == '_' && |s| >= 2 {
        assert rest[0] == s[1] && s[1] != '_';
      }
    }
  }

  /** `s` with every underscore deleted. */
  function DropUnderscores(s: string): (r: string) {
    if s == [] then [] else (if s[0] == '_' then [] else [s[0]]) + DropUnderscores(s[1..])
  }

  lemma {:induction false} DropUnderscoresConcat(a: string, b: string)
    ensures DropUnderscores(a + b) == DropUnderscores(a) + DropUnderscores(b)
    decreases |a|
  {
    if a == [] {
      assert a + b == b;
    } else {
      assert (a + b)[1..] == a[1..] + b;
      DropUnderscoresConcat(a[1..], b);
    }
  }

  lemma {:induction false} InsertUnderscoresIdentity(s: string)
    requires forall c :: c in s ==> !IsUpper(c)
    ensures InsertUnderscores(s) == s
    decreases |s|
  {
    if s != [] {
      InsertUnderscoresIdentity(s[1..]);
    }
  }

  lemma {:induction false} ToLowerIdentity(s: string)
    requires forall c :: c in s ==> !IsUpper(c)
    ensures ToLower(s) == s
  {
    assert forall i :: 0 <= i < |s| ==> ToLower(s)[i] == s[i];
  }

  lemma {:induction false} CollapseIdentity(s: string)
    requires NoDoubleUnderscore(s)
    ensures CollapseUnderscores(s) == s
    decreases |s|
  {
    if s != [] {
      assert NoDoubleUnderscore(s[1..]) by {
        forall i | 0 <= i < |s[1..]| - 1 && s[1..][i] == '_' ensures s[1..][i + 1] != '_' {
          assert s[i + 1] == '_';
        }
      }
      CollapseIdentity(s[1..]);
    }
  }

  /**
   * Re-applying the transliteration to its own output changes nothing.
   */
  lemma SnakeNameIdempotent(name: string)
    ensures SnakeName(SnakeName(name)) == SnakeName(name)
  {
    var t := SnakeName(name);
    InsertUnderscoresIdentity(t);
    ToLowerIdentity(t);
    CollapseIdentity(t);
  }

  lemma {:induction false} DropAfterInsert(s: string)
    ensures DropUnderscores(InsertUnderscores(s)) == DropUnderscores(s)
    decreases |s|
  {
    if s != [] {
      var head := if IsUpper(s[0]) then ['_', s[0]] else [s[0]];
      DropUnderscoresConcat(head, InsertUnderscores(s[1..]));
      DropUnderscoresConcat([s[0]], s[1..]);
      assert [s[0]] + s[1..] == s;
      if IsUpper(s[0]) {
        DropUnderscoresConcat(['_'], [s[0]]);
        assert ['_'] + [s[0]] == head;
      }
      DropAfterInsert(s[1..]);
    }
  }

  lemma {:induction false} DropAfterLower(s: string)
    ensures DropUnderscores(ToLower(s)) == ToLower(DropUnderscores(s))
    decreases |s|
  {
    if s != [] {
      assert ToLower(s) == [Lowered(s[0])] + ToLower(s[1..]);
      assert DropUnderscores(s) == (if s[0] == '_' then [] else [s[0]]) + DropUnderscores(s[1..]);
      DropAfterLower(s[1..]);
      ToLowerConcat(if s[0] == '_' then [] else [s[0]], DropUnderscores(s[1..]));
    }
  }

  lemma {:induction false} DropAfterCollapse(s: string)
    ensures DropUnderscores(CollapseUnderscores(s)) == DropUnderscores(s)
    decreases |s|
  {
    if |s| >= 2 && s[0] == '_' && s[1] == '_' {
      var n := LeadingUnderscores(s);
      DropAfterCollapse(s[n..]);
      DropUnderscoresConcat("_", CollapseUnderscores(s[n..]));
      DropUnderscoresConcat(s[..n], s[n..]);
      assert s[..n] + s[n..] == s;
      DropOfUnderscores(s[..n]);
    } else if s != [] {
      DropAfterCollapse(s[1..]);
    }
  }

  lemma {:induction false} DropOfUnderscores(u: string)
    requires forall i :: 0 <= i < |u| ==> u[i] == '_'
    ensures DropUnderscores(u) == []
    decreases |u|
  {
    if u != [] {
      DropOfUnderscores(u[1..]);
    }
  }

  /**
   * The letters (and every other non-underscore character) of the input
   * survive in order, lowered: only underscores are added or removed.
   */
  lemma SnakeNameKeepsLetters(name: string)
    ensures DropUnderscores(SnakeName(name)) == ToLower(DropUnderscores(name))
  {
    var u := InsertUnderscores(name);
    DropAfterCollapse(ToLower(u));
    DropAfterLower(u);
    DropAfterInsert(name);
  }

  /** Letters, and underscores each followed by an upper-case letter. */
  ghost predicate MarkedLetters(r: string) {
    forall i {:trigger r[i]} :: 0 <= i < |r| ==> IsLower(r[i]) || IsUpper(r[i]) || (r[i] == '_' && i + 1 < |r| && IsUpper(r[i + 1]))
  }

  /** Every underscore that pass 1 produces on a letters-only input precedes an upper-case letter. */
  lemma {:induction false} InsertUnderscoresShape(s: string)
    requires forall i :: 0 <= i < |s| ==> IsLower(s[i]) || IsUpper(s[i])
    ensures MarkedLetters(InsertUnderscores(s))
    decreases |s|
  {
    if s != [] {
      InsertUnderscoresShape(s[1..]);
      var head := if IsUpper(s[0]) then ['_', s[0]] else [s[0]];
      var r := InsertUnderscores(s);
      var rest := InsertUnderscores(s[1..]);
      assert r == head + rest;
      forall i | 0 <= i < |r|
        ensures IsLower(r[i]) || IsUpper(r[i]) || (r[i] == '_' && i + 1 < |r| && IsUpper(r[i + 1]))
      {
        assert MarkedLetters(rest);
        if i >= |head| {
          assert r[i] == rest[i - |head|];
          assert i + 1 < |r| ==> r[i + 1] == rest[i + 1 - |head|];
        } else if IsUpper(s[0]) {
          assert r[0] == '_' && r[1] == s[0];
        } else {
          assert r[0] == s[0];
        }
      }
    }
  }

  /** Lower-case letters, and underscores each followed by a lower-case letter. */
  ghost predicate MarkedLowerLetters(t: string) {
    forall i {:trigger t[i]} :: 0 <= i < |t| ==> IsLower(t[i]) || (t[i] == '_' && i + 1 < |t| && IsLower(t[i + 1]))
  }

  lemma LowerKeepsMarks(u: string)
    requires MarkedLetters(u)
    ensures MarkedLowerLetters(ToLower(u))
  {
    var t := ToLower(u);
    forall i | 0 <= i < |t|
      ensures IsLower(t[i]) || (t[i] == '_' && i + 1 < |t| && IsLower(t[i + 1]))
    {
      assert t[i] == Lowered(u[i]);
      if u[i] == '_' {
        assert t[i + 1] == Lowered(u[i + 1]);
      }
    }
  }

  lemma MarkedLowerNoDouble(t: string)
    requires MarkedLowerLetters(t)
    ensures NoDoubleUnderscore(t)
  {
  }

  lemma MarkedLowerConforms(t: string)
    requires |t| > 0 && MarkedLowerLetters(t)
    ensures IsSnakeCase(t)
  {
    MarkedLowerNoDouble(t);
    var n := LeadingUnderscores(t);
    assert IsLower(t[|t| - 1]);
    assert n < |t|;
    var body := t[n..];
    assert IsLower(body[0]) by {
      assert body[0] == t[n];
    }
    assert IsLower(body[|body| - 1]) by {
      assert body[|body| - 1] == t[|t| - 1];
    }
    assert forall i :: 0 <= i < |body| ==> IsLower(body[i]) || body[i] == '_' by {
      forall i | 0 <= i < |body| ensures IsLower(body[i]) || body[i] == '_' {
        assert body[i] == t[n + i];
      }
    }
    assert NoDoubleUnderscore(body) by {
      forall i | 0 <= i < |body| - 1 && body[i] == '_' ensures body[i + 1] != '_' {
        assert body[i] == t[n + i] && body[i + 1] == t[n + i + 1];
      }
    }
    assert SegmentShape(body, Lower);
    IsSnakeCaseIff(t);
  }

  /** On a letters-only name, pass 3 has nothing to do: pass 1 never puts two underscores side by side. */
  lemma SnakeNameOfLetters(name: string)
    requires forall i :: 0 <= i < |name| ==> IsLower(name[i]) || IsUpper(name[i])
    ensures SnakeName(name) == ToLower(InsertUnderscores(name))
    ensures MarkedLowerLetters(SnakeName(name))
  {
    var u := InsertUnderscores(name);
    InsertUnderscoresShape(name);
    LowerKeepsMarks(u);
    MarkedLowerNoDouble(ToLower(u));
    CollapseIdentity(ToLower(u));
  }

  /**
   * On a non-empty name made of ASCII letters only, the suggested name is
   * itself accepted by the classifier (possibly with one leading underscore,
   * when the name starts with an upper-case letter).
   */
  lemma SnakeNameConforms(name: string)
    requires |name| > 0
    requires forall i :: 0 <= i < |name| ==> IsLower(name[i]) || IsUpper(name[i])
    ensures IsSnakeCase(SnakeName(name))
  {
    SnakeNameOfLetters(name);
    MarkedLowerConforms(SnakeName(name));
  }

  /** Examples of the transliteration. */
  lemma ExampleCamel()
    ensures SnakeName("myVar") == "my_var"
  {
    assert InsertUnderscores("myVar") == "my_Var";
    assert ToLower("my_Var") == "my_var";
    CollapseIdentity("my_var");
  }

  lemma ExampleAcronym()
    ensures SnakeName("reqID") == "req_i_d"
  {
    assert InsertUnderscores("reqID") == "req_I_D";
    assert ToLower("req_I_D") == "req_i_d";
    CollapseIdentity("req_i_d");
  }

  lemma {:induction false} InsertUnderscoresConcat(a: string, b: string)
    ensures InsertUnderscores(a + b) == InsertUnderscores(a) + InsertUnderscores(b)
    decreases |a|
  {
    if a == [] {
      assert a + b == b;
    } else {
      assert (a + b)[1..] == a[1..] + b;
      InsertUnderscoresConcat(a[1..], b);
    }
  }

  lemma ToLowerConcat(a: string, b: string)
    ensures ToLower(a + b) == ToLower(a) + ToLower(b)
  {
    assert forall i :: 0 <= i < |a + b| ==> ToLower(a + b)[i] == (ToLower(a) + ToLower(b))[i];
  }

  lemma InsertExampleLeadingUpper()
    ensures InsertUnderscores("HTTPGet") == "_H_T_T_P_Get"
  {
    calc {
      InsertUnderscores("HTTPGet");
      { assert "HTTPGet" == "HTT" + "PGet"; InsertUnderscoresConcat("HTT", "PGet"); }
      InsertUnderscores("HTT") + InsertUnderscores("PGet");
      { assert InsertUnderscores("HTT") == "_H_T_T"; }
      "_H_T_T" + InsertUnderscores("PGet");
      { assert InsertUnderscores("PGet") == "_P_Get"; }
      "_H_T_T" + "_P_Get";
    }
  }

  lemma LowerExampleLeadingUpper()
    ensures ToLower("_H_T_T_P_Get") == "_h_t_t_p_get"
  {
    calc {
      ToLower("_H_T_T_P_Get");
      { assert "_H_T_T_P_Get" == "_H_T_T" + "_P_Get"; ToLowerConcat("_H_T_T", "_P_Get"); }
      ToLower("_H_T_T") + ToLower("_P_Get");
      { assert ToLower("_H_T_T") == "_h_t_t"; }
      "_h_t_t" + ToLower("_P_Get");
      { assert ToLower("_P_Get") == "_p_get"; }
      "_h_t_t" + "_p_get";
    }
  }

  /** A leading upper-case letter leaves a leading underscore, and acronyms are spelled out. */
  lemma ExampleLeadingUpper()
    ensures SnakeName("HTTPGet") == "_h_t_t_p_get"
  {
    var name := "HTTPGet";
    InsertExampleLeadingUpper();
    LowerExampleLeadingUpper();
    assert forall i :: 0 <= i < |name| ==> IsLower(name[i]) || IsUpper(name[i]);
    SnakeNameOfLetters(name);
  }

  /** A character that does not start a run of two underscores is copied by pass 3. */
  lemma CollapseCopies(c: char, s: string)
    requires c != '_' || s == [] || s[0] != '_'
    ensures CollapseUnderscores([c] + s) == [c] + CollapseUnderscores(s)
  {
    assert ([c] + s)[1..] == s;
  }

  /** A run of underscores ends exactly where the rest of the name does not start with one. */
  lemma {:induction false} RunLength(u: string, s: string)
    requires forall i :: 0 <= i < |u| ==> u[i] == '_'
    requires s == [] || s[0] != '_'
    ensures LeadingUnderscores(u + s) == |u|
    decreases |u|
  {
    if u == [] {
      assert u + s == s;
    } else {
      assert (u + s)[1..] == u[1..] + s;
      RunLength(u[1..], s);
    }
  }

  /** A run of two or more underscores leaves exactly one, and pass 3 goes on after the run. */
  lemma CollapseRun(u: string, s: string)
    requires |u| >= 2 && forall i :: 0 <= i < |u| ==> u[i] == '_'
    requires s == [] || s[0] != '_'
    ensures CollapseUnderscores(u + s) == "_" + CollapseUnderscores(s)
  {
    RunLength(u, s);
    assert (u + s)[0] == '_' && (u + s)[1] == '_';
    assert (u + s)[|u|..] == s;
  }

  lemma CollapseExampleCollapse()
    ensures CollapseUnderscores("x__y") == "x_y"
  {
    assert LeadingUnderscores("__y") == 2 by {
      assert LeadingUnderscores("y") == 0;
      assert LeadingUnderscores("_y") == 1;
    }
    assert "__y"[2..] == "y";
    assert CollapseUnderscores("__y") == "_y";
    CollapseCopies('x', "__y");
    assert "x__y" == ['x'] + "__y";
  }

  /** Pass 1 can put an underscore next to an existing one; pass 3 collapses the pair. */
  lemma ExampleCollapse()
    ensures SnakeName("x_Y") == "x_y"
  {
    assert InsertUnderscores("x_Y") == "x__Y";
    assert ToLower("x__Y") == "x__y";
    CollapseExampleCollapse();
  }

  /** A name the classifier rejects can come back unchanged: digits are not letters. */
  lemma ExampleUnchanged()
    ensures !IsSnakeCase("value1") && SnakeName("value1") == "value1"
  {
    assert !IsSnakeCase("value1") by {
      assert "value1"[5] == '1';
      RejectsForeignCharacter("value1", 5);
    }
    assert SnakeName("value1") == "value1" by {
      var name := "value1";
      assert forall i :: 0 <= i < |name| ==> !IsUpper(name[i]);
      InsertUnderscoresIdentity(name);
      ToLowerIdentity(name);
      CollapseIdentity(name);
    }
  }
}
