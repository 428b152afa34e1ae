/** The scope normalisation of a method call: the scope's source text has every
    parenthesised group deleted (so that the arguments of an earlier call in a
    chain are not taken for part of the scope), is split on dots, and the last
    piece is the token the call's scope is looked up by.

    The deletion is `replaceAll` of the regular expression `\(.*?\)`: from left
    to right, an opening parenthesis and everything up to the nearest closing
    one are removed. `.` does not match a line terminator, so an opening
    parenthesis whose nearest closing one lies beyond a line break is kept.
    The split is `split("\\.")`: trailing empty pieces are dropped, and text
    without a dot yields itself as its only piece. */
module ScopeToken {
  import opened Wrappers

  /** The characters `.` refuses outside DOTALL mode. */
  predicate IsLineTerminator(c: char)
  {
    c == '\n' || c == '\r' || c == '\U{0085}' || c == '\U{2028}' || c == '\U{2029}'
  }

  // ---- deleting parenthesised groups ----------------------------------------

  /** Where the lazy `.*?\)` that follows an opening parenthesis ends in `t`: the
      first closing parenthesis, provided no line terminator comes before it. */
  function Close(t: string): (r: Option<nat>)
    ensures r.Some? ==> r.value < |t| && t[r.value] == ')'
    ensures r.Some? ==> forall j :: 0 <= j < r.value ==> t[j] != ')' && !IsLineTerminator(t[j])
    ensures r.None? ==> forall k :: 0 <= k < |t| && t[k] == ')' ==> exists j :: 0 <= j < k && IsLineTerminator(t[j])
  {
    if t == [] then None
    else if t[0] == ')' then Some(0)
    else if IsLineTerminator(t[0]) then None
    else
      match Close(t[1..])
      case Some(k) => Some(k + 1)
      case None =>
        assert forall k :: 1 <= k < |t| ==> t[k] == t[1..][k - 1];
        None
  }

  /** No opening parenthesis of `s` starts a group the expression would match. */
  predicate NoGroup(s: string)
  {
    forall i :: 0 <= i < |s| && s[i] == '(' ==> Close(s[i + 1..]).None?
  }

  /** `replaceAll("\\(.*?\\)", "")`: a match is searched from each position in
      turn; after a match the search resumes behind it. */
  function Strip(s: string): (r: string)
    ensures |r| <= |s|
    decreases |s|
  {
    if s == [] then []
    else if s[0] == '(' && Close(s[1..]).Some? then Strip(s[1..][Close(s[1..]).value + 1..])
    else [s[0]] + Strip(s[1..])
  }

  /** Deleting groups from text in which a parenthesis would find no closing
      partner cannot give it one: the line terminator in the way is never
      inside a deleted group. */
  lemma {:induction false} StripKeepsUnclosed(t: string)
    requires Close(t).None?
    ensures Close(Strip(t)).None?
    decreases |t|
  {
    if t != [] && !IsLineTerminator(t[0]) {
      assert Close(t[1..]).None?;
      StripKeepsUnclosed(t[1..]);
      var r := Strip(t[1..]);
      assert ([t[0]] + r)[1..] == r;
    }
  }

  /** The result of `Strip` has no group left to delete. */
  lemma {:induction false} StripLeavesNoGroup(s: string)
    ensures NoGroup(Strip(s))
    decreases |s|
  {
    if s != [] {
      if s[0] == '(' && Close(s[1..]).Some? {
        StripLeavesNoGroup(s[1..][Close(s[1..]).value + 1..]);
      } else {
        StripLeavesNoGroup(s[1..]);
        var r' := Strip(s[1..]);
        var r := [s[0]] + r';
        forall i | 0 <= i < |r| && r[i] == '(' ensures Close(r[i + 1..]).None? {
          if i == 0 {
            assert r[1..] == r';
            StripKeepsUnclosed(s[1..]);
          } else {
            assert r[i + 1..] == r'[i..];
          }
        }
      }
    }
  }

  /** Text with no group left is its own normal form. */
  lemma {:induction false} NoGroupIsFixed(s: string)
    requires NoGroup(s)
    ensures Strip(s) == s
    decreases |s|
  {
    if s != [] {
      forall i | 0 <= i < |s[1..]| && s[1..][i] == '(' ensures Close(s[1..][i + 1..]).None? {
        assert s[1..][i + 1..] == s[i + 2..];
      }
      NoGroupIsFixed(s[1..]);
    }
  }

  /** Deleting the groups a second time deletes nothing. */
  lemma StripIdempotent(s: string)
    ensures Strip(Strip(s)) == Strip(s)
  {
    StripLeavesNoGroup(s);
    NoGroupIsFixed(Strip(s));
  }

  /** Text before the first opening parenthesis is kept as it is. */
  lemma {:induction false} StripKeepsPlainPrefix(a: string, t: string)
    requires forall i :: 0 <= i < |a| ==> a[i] != '('
    ensures Strip(a + t) == a + Strip(t)
    decreases |a|
  {
    if a != [] {
      assert a[0] != '(';
      assert (a + t)[0] == a[0] && (a + t)[1..] == a[1..] + t;
      assert Strip(a + t) == [a[0]] + Strip(a[1..] + t);
      StripKeepsPlainPrefix(a[1..], t);
      assert a == [a[0]] + a[1..];
    } else {
      assert a + t == t;
    }
  }

  /** An opening parenthesis, text without a closing one or a line terminator,
      and a closing parenthesis are deleted together. */
  lemma StripDeletesGroup(b: string, c: string)
    requires forall i :: 0 <= i < |b| ==> b[i] != ')' && !IsLineTerminator(b[i])
    ensures Strip(['('] + b + [')'] + c) == Strip(c)
  {
    var s := ['('] + b + [')'] + c;
    var t := b + [')'] + c;
    assert s[1..] == t;
    assert t[|b|] == ')';
    assert Close(t) == Some(|b|);
    assert t[|b| + 1..] == c;
  }

  /** An opening parenthesis whose nearest closing one lies beyond a line
      terminator, or that has none, is kept. */
  lemma StripKeepsUnmatchedOpen(t: string)
    requires Close(t).None?
    ensures Strip(['('] + t) == ['('] + Strip(t)
  {
    assert (['('] + t)[1..] == t;
  }

  // ---- splitting on dots ------------------------------------------------------

  /** Joining pieces with a dot between neighbours. */
  function JoinDots(pieces: seq<string>): string
    requires pieces != []
    decreases |pieces|
  {
    if |pieces| == 1 then pieces[0]
    else JoinDots(pieces[..|pieces| - 1]) + ['.'] + pieces[|pieces| - 1]
  }

  /** The text between dots, every piece kept, including empty ones. */
  function Segments(s: string): (pieces: seq<string>)
    ensures pieces != [] && JoinDots(pieces) == s
    ensures forall i :: 0 <= i < |pieces| ==> '.' !in pieces[i]
    decreases |s|
  {
    if s == [] then [[]]
    else
      var init := s[..|s| - 1];
      var c := s[|s| - 1];
      var r := Segments(init);
      assert s == init + [c];
      if c == '.' then
        JoinDotsNewPiece(r);
        r + [[]]
      else
        JoinDotsExtendLast(r, c);
        var pieces := r[..|r| - 1] + [r[|r| - 1] + [c]];
        assert forall i :: 0 <= i < |r| - 1 ==> pieces[i] == r[i];
        pieces
  }

  /** A new empty piece adds a dot at the end of the joined text. */
  lemma JoinDotsNewPiece(r: seq<string>)
    requires r != []
    ensures JoinDots(r + [[]]) == JoinDots(r) + ['.']
  {
    assert (r + [[]])[..|r|] == r;
  }

  /** A character added to the last piece is added at the end of the joined
      text. */
  lemma JoinDotsExtendLast(r: seq<string>, c: char)
    requires r != []
    ensures JoinDots(r[..|r| - 1] + [r[|r| - 1] + [c]]) == JoinDots(r) + [c]
  {
    var pieces := r[..|r| - 1] + [r[|r| - 1] + [c]];
    if |r| > 1 {
      assert pieces[..|pieces| - 1] == r[..|r| - 1];
    }
  }

  /** `split` with no limit drops the empty pieces at the end. */
  function DropTrailingEmpty(pieces: seq<string>): (r: seq<string>)
    ensures r <= pieces
    ensures r != [] ==> r[|r| - 1] != []
    ensures forall i :: |r| <= i < |pieces| ==> pieces[i] == []
    decreases |pieces|
  {
    if pieces == [] then []
    else if pieces[|pieces| - 1] == [] then DropTrailingEmpty(pieces[..|pieces| - 1])
    else pieces
  }

  /** `split("\\.")`: text without a dot is its own only piece; otherwise the
      pieces between dots without the empty ones at the end. */
  function JavaSplitDot(s: string): seq<string>
  {
    if '.' !in s then [s] else DropTrailingEmpty(Segments(s))
  }

  /** What `split("\\.")` yields: pieces without dots, none exactly when the
      text is non-empty and all dots, and otherwise a last piece that is the
      text after the last dot, trailing dots ignored. */
  lemma JavaSplitDotReading(s: string)
    ensures var p := JavaSplitDot(s);
      && (forall i :: 0 <= i < |p| ==> '.' !in p[i])
      && (p == [] <==> s != [] && AllDots(s))
      && (p != [] ==> p[|p| - 1] == AfterLastDot(TrimTrailingDots(s)))
  {
    if '.' !in s {
      assert JavaSplitDot(s) == [s];
      NoDotNotAllDots(s);
      NoDotReading(s);
    } else {
      assert JavaSplitDot(s) == DropTrailingEmpty(Segments(s));
      SplitLast(s);
      SplitPiecesHaveNoDot(s);
    }
  }

  /** Non-empty text without a dot is not all dots. */
  lemma NoDotNotAllDots(s: string)
    requires '.' !in s
    ensures s != [] ==> !AllDots(s)
  {
    if s != [] {
      assert s[0] in s;
    }
  }

  /** The pieces `split` keeps hold no dot. */
  lemma SplitPiecesHaveNoDot(s: string)
    ensures var p := DropTrailingEmpty(Segments(s));
      forall i :: 0 <= i < |p| ==> '.' !in p[i]
  {
    var q := Segments(s);
    var p := DropTrailingEmpty(q);
    forall i | 0 <= i < |p| ensures '.' !in p[i] {
      assert p[i] == q[i];
    }
  }

  /** The scope token: the last piece of the split of the text without its
      groups. Text that splits into no piece at all makes the list lookup
      throw. */
  function ScopeTokenOf(scopeText: string): (r: Result<string>)
    ensures r.Failure? ==> r.error == EmptySplit(scopeText)
  {
    var pieces := JavaSplitDot(Strip(scopeText));
    if pieces == [] then Failure(EmptySplit(scopeText)) else Success(pieces[|pieces| - 1])
  }

  // ---- an independent reading of the token ----------------------------------

  /** Every character is a dot; the empty text included. */
  predicate AllDots(s: string)
  {
    forall i :: 0 <= i < |s| ==> s[i] == '.'
  }

  /** The text without its trailing dots. */
  function TrimTrailingDots(s: string): (r: string)
    ensures r <= s && (r != [] ==> r[|r| - 1] != '.')
    decreases |s|
  {
    if s != [] && s[|s| - 1] == '.' then TrimTrailingDots(s[..|s| - 1]) else s
  }

  /** The text after the last dot, or all of it when there is none. */
  function AfterLastDot(s: string): (r: string)
    ensures '.' !in r
    decreases |s|
  {
    if s == [] || s[|s| - 1] == '.' then [] else AfterLastDot(s[..|s| - 1]) + [s[|s| - 1]]
  }

  /** The last dot-separated piece is the text after the last dot. */
  lemma {:induction false} LastSegment(s: string)
    ensures Segments(s)[|Segments(s)| - 1] == AfterLastDot(s)
    decreases |s|
  {
    if s != [] {
      LastSegment(s[..|s| - 1]);
    }
  }

  /** `split("\\.")` is empty exactly on a text of dots only; otherwise its last
      piece is the text after the last dot, once the trailing dots are ignored. */
  lemma {:induction false} SplitLast(s: string)
    ensures var p := DropTrailingEmpty(Segments(s));
      && (p == [] <==> AllDots(s))
      && (p != [] ==> p[|p| - 1] == AfterLastDot(TrimTrailingDots(s)))
    decreases |s|
  {
    if s != [] {
      if s[|s| - 1] == '.' {
        SplitLast(s[..|s| - 1]);
        SplitLastDot(s);
      } else {
        SplitLastNoDot(s);
      }
    }
  }

  /** A trailing dot carries the `split` reading of the text before it over. */
  lemma SplitLastDot(s: string)
    requires s != [] && s[|s| - 1] == '.'
    requires var p := DropTrailingEmpty(Segments(s[..|s| - 1]));
      && (p == [] <==> AllDots(s[..|s| - 1]))
      && (p != [] ==> p[|p| - 1] == AfterLastDot(TrimTrailingDots(s[..|s| - 1])))
    ensures var p := DropTrailingEmpty(Segments(s));
      && (p == [] <==> AllDots(s))
      && (p != [] ==> p[|p| - 1] == AfterLastDot(TrimTrailingDots(s)))
  {
    TrailingDotIgnored(s);
    AllDotsSnoc(s);
  }

  /** Text ending in another character is not all dots and its last piece
      is the text after its last dot. */
  lemma SplitLastNoDot(s: string)
    requires s != [] && s[|s| - 1] != '.'
    ensures var p := DropTrailingEmpty(Segments(s));
      && (p == [] <==> AllDots(s))
      && (p != [] ==> p[|p| - 1] == AfterLastDot(TrimTrailingDots(s)))
  {
    NoTrailingDot(s);
  }

  /** Text that does not end in a dot is not all dots, keeps its last piece
      through `split`, and has no trailing dots to trim. */
  lemma NoTrailingDot(s: string)
    requires s != [] && s[|s| - 1] != '.'
    ensures !AllDots(s)
    ensures DropTrailingEmpty(Segments(s)) == Segments(s)
    ensures TrimTrailingDots(s) == s
    ensures Segments(s)[|Segments(s)| - 1] == AfterLastDot(s)
  {
    LastSegment(s);
    assert AfterLastDot(s) != [];
  }

  /** A trailing dot changes neither the split nor the text without trailing
      dots. */
  lemma TrailingDotIgnored(s: string)
    requires s != [] && s[|s| - 1] == '.'
    ensures DropTrailingEmpty(Segments(s)) == DropTrailingEmpty(Segments(s[..|s| - 1]))
    ensures TrimTrailingDots(s) == TrimTrailingDots(s[..|s| - 1])
  {
    var r := Segments(s[..|s| - 1]);
    assert Segments(s) == r + [[]];
    assert (r + [[]])[..|r|] == r;
  }

  /** Text is all dots exactly when its last character is a dot and the text
      before it is all dots. */
  lemma AllDotsSnoc(s: string)
    requires s != []
    ensures AllDots(s) <==> AllDots(s[..|s| - 1]) && s[|s| - 1] == '.'
  {
    var init := s[..|s| - 1];
    if AllDots(init) && s[|s| - 1] == '.' {
      forall i | 0 <= i < |s| ensures s[i] == '.' {
        if i < |init| { assert s[i] == init[i]; }
      }
    }
  }

  /** The token is the text after the last dot once the trailing dots are gone;
      text that is nothing but dots (after deleting the groups) has none. */
  lemma ScopeTokenReading(scopeText: string)
    ensures var u := Strip(scopeText);
      ScopeTokenOf(scopeText)
        == if u != [] && AllDots(u) then Failure(EmptySplit(scopeText))
           else Success(AfterLastDot(TrimTrailingDots(u)))
  {
    var u := Strip(scopeText);
    SplitLast(u);
    if '.' !in u {
      NoDotReading(u);
    } else {
      assert u != [];
    }
  }

  /** A text without a dot is its own last piece. */
  lemma {:induction false} NoDotReading(s: string)
    requires '.' !in s
    ensures TrimTrailingDots(s) == s && AfterLastDot(s) == s
    decreases |s|
  {
    if s != [] {
      assert s[|s| - 1] in s;
      assert '.' !in s[..|s| - 1];
      NoDotReading(s[..|s| - 1]);
    }
  }

  /** The token never holds a dot, and it is empty only when the text is (after
      deleting groups) empty or ends in a dot. */
  lemma ScopeTokenShape(scopeText: string)
    ensures ScopeTokenOf(scopeText).Success? ==> '.' !in ScopeTokenOf(scopeText).value
    ensures ScopeTokenOf(scopeText).Success? && ScopeTokenOf(scopeText).value == [] ==>
      var u := Strip(scopeText); u == [] || u[|u| - 1] == '.'
  {
    ScopeTokenReading(scopeText);
  }

  /** The text after the last dot of `a.b` is `b` when `b` holds no dot. */
  lemma {:induction false} AfterLastDotOfJoin(a: string, b: string)
    requires '.' !in b
    ensures AfterLastDot(a + ['.'] + b) == b
    decreases |b|
  {
    var s := a + ['.'] + b;
    if b == [] {
      assert s[|s| - 1] == '.';
    } else {
      var b' := b[..|b| - 1];
      assert b[|b| - 1] in b;
      assert '.' !in b';
      assert s[..|s| - 1] == a + ['.'] + b';
      AfterLastDotOfJoin(a, b');
      assert b == b' + [b[|b| - 1]];
    }
  }

  /** A plain receiver, with no dot and no parenthesis, is its own token. */
  lemma PlainToken(s: string)
    requires '.' !in s && '(' !in s
    ensures ScopeTokenOf(s) == Success(s)
  {
    StripKeepsPlainPrefix(s, []);
    assert s + [] == s;
    ScopeTokenReading(s);
    NoDotReading(s);
    if s != [] {
      assert !AllDots(s) by { assert s[0] in s; }
    }
  }

  /** The scope of a call chained onto an earlier call, as in
      `sb.append(a).append(b)`, is that earlier call `receiver.name(arg)`: its
      token is the earlier call's name. */
  lemma ChainedCallToken(receiver: string, name: string, arg: string)
    requires forall i :: 0 <= i < |receiver| ==> receiver[i] != '('
    requires name != [] && '.' !in name && '(' !in name
    requires forall i :: 0 <= i < |arg| ==> arg[i] != ')' && !IsLineTerminator(arg[i])
    ensures ScopeTokenOf(receiver + ['.'] + name + ['('] + arg + [')']) == Success(name)
  {
    var u := receiver + ['.'] + name;
    var group := ['('] + arg + [')'];
    var text := u + group;
    assert text == receiver + ['.'] + name + ['('] + arg + [')'];
    forall i | 0 <= i < |u| ensures u[i] != '(' {
      if i > |receiver| { assert u[i] == name[i - |receiver| - 1]; }
    }
    StripKeepsPlainPrefix(u, group);
    StripDeletesGroup(arg, []);
    assert group + [] == group;
    assert u + [] == u;
    assert Strip(text) == u;
    ScopeTokenReading(text);
    AfterLastDotOfJoin(receiver, name);
    assert u[|u| - 1] == name[|name| - 1];
    assert name[|name| - 1] in name;
    assert !AllDots(u);
    assert TrimTrailingDots(u) == u;
  }
}
