/** What flb_env_var_translate makes of a template, as a function of the template and the variables. */
module EnvTemplate {
  import opened Bytes

  const DOLLAR: byte := 36
  const OPEN: byte := 123
  const CLOSE: byte := 125

  /** Room for a variable name in the translator's temporary buffer, its NUL included. */
  const NAME_MAX := 4096

  predicate VarAt(v: seq<byte>, j: nat) {
    j + 2 <= |v| && v[j] == DOLLAR && v[j + 1] == OPEN
  }

  /** The first position at or after `i` where "${" stands, or -1. */
  function FindVar(v: seq<byte>, i: nat): (k: int)
    requires i <= |v|
    ensures k == -1 || (i <= k && VarAt(v, k))
    ensures forall j :: i <= j < (if k < 0 then |v| else k) ==> !VarAt(v, j)
    decreases |v| - i
  {
    if i == |v| then -1 else if VarAt(v, i) then i else FindVar(v, i + 1)
  }

  /** The first position at or after `i` where "}" stands, or -1. */
  function FindClose(v: seq<byte>, i: nat): (k: int)
    requires i <= |v|
    ensures k == -1 || (i <= k < |v| && v[k] == CLOSE)
    ensures forall j :: i <= j < (if k < 0 then |v| else k) ==> v[j] != CLOSE
    decreases |v| - i
  {
    if i == |v| then -1 else if v[i] == CLOSE then i else FindClose(v, i + 1)
  }

  /** The variable the translator expands from position `i` on: where its name starts and ends. */
  function NextVar(v: seq<byte>, i: nat): (r: Option<(nat, nat)>)
    requires i <= |v|
    ensures r.Some? ==> i + 2 <= r.value.0 < r.value.1 < |v|
  {
    var s, e := FindVar(v, i), FindClose(v, i);
    if s < 0 || e < 0 || !(0 < e - (s + 2) < NAME_MAX) then None else Some((s + 2, e))
  }

  function ValueOr(o: Option<seq<byte>>): seq<byte> {
    if o.Some? then o.value else []
  }

  /** The text up to the last variable expanded, whether there was one, and where the text after it starts. */
  datatype Expanded = Expanded(text: seq<byte>, any: bool, from: nat)

  function Expand(look: seq<byte> -> Option<seq<byte>>, v: seq<byte>, i: nat): (x: Expanded)
    requires i <= |v|
    ensures x.from <= |v|
    decreases |v| - i
  {
    match NextVar(v, i)
    case None => Expanded([], false, i)
    case Some((s, e)) =>
      var x := Expand(look, v, e + 1);
      Expanded(v[i..s - 2] + ValueOr(look(v[s..e])) + x.text, true, x.from)
  }

  lemma ExpandNone(look: seq<byte> -> Option<seq<byte>>, v: seq<byte>, i: nat)
    requires i <= |v| && NextVar(v, i).None?
    ensures Expand(look, v, i) == Expanded([], false, i)
  {
  }

  lemma ExpandSome(look: seq<byte> -> Option<seq<byte>>, v: seq<byte>, i: nat, s: nat, e: nat)
    requires i <= |v| && NextVar(v, i) == Some((s, e))
    ensures var x := Expand(look, v, e + 1);
            Expand(look, v, i) == Expanded(v[i..s - 2] + ValueOr(look(v[s..e])) + x.text, true, x.from)
  {
    hide NextVar, ValueOr;
  }

  /** The position behind which the translator copies the rest, or -1: the last "}" it looked at. */
  function CopyFrom(v: seq<byte>, from: nat): (k: int)
    requires from <= |v|
    ensures -1 <= k <= |v|
  {
    if from == |v| || FindVar(v, from) < 0 then from
    else if FindClose(v, from) < 0 then -1
    else FindClose(v, from) + 1
  }

  /** The result of the translation of any template. */
  function Translate(look: seq<byte> -> Option<seq<byte>>, v: seq<byte>): seq<byte> {
    var x := Expand(look, v, 0);
    if !x.any then v
    else if CopyFrom(v, x.from) < 0 then x.text
    else x.text + v[CopyFrom(v, x.from)..]
  }

  /** How the loop's last look at "}" and the copy behind it make up the result. */
  lemma CopyRest(look: seq<byte> -> Option<seq<byte>>, v: seq<byte>, buf: seq<byte>, any: bool, i: nat, vEnd: int)
    requires Expand(look, v, 0) == Expanded(buf, any, i) && -1 <= vEnd < |v|
    requires any ==> i > 0 && vEnd == if CopyFrom(v, i) < 0 then -1 else CopyFrom(v, i) - 1
    ensures any ==> Translate(look, v) == if vEnd >= 0 && |v| - (vEnd + 1) > 0 then buf + v[vEnd + 1..] else buf
    ensures !any ==> Translate(look, v) == v
  {
    hide *;
    TranslateIs(look, v, buf, any, i);
    if any {
      CopyBehind(v, i);
      if CopyFrom(v, i) == |v| {
        assert v[|v|..] == [] && buf + [] == buf;
      }
    }
  }

  lemma TranslateIs(look: seq<byte> -> Option<seq<byte>>, v: seq<byte>, buf: seq<byte>, any: bool, i: nat)
    requires Expand(look, v, 0) == Expanded(buf, any, i) && i <= |v|
    ensures !any ==> Translate(look, v) == v
    ensures any && CopyFrom(v, i) < 0 ==> Translate(look, v) == buf
    ensures any && CopyFrom(v, i) >= 0 ==> Translate(look, v) == buf + v[CopyFrom(v, i)..]
  {
    hide Expand, CopyFrom;
  }

  /** The copy starts behind a variable, never at the front. */
  lemma CopyBehind(v: seq<byte>, i: nat)
    requires 0 < i <= |v|
    ensures CopyFrom(v, i) != 0
  {
  }

  // ----- what is kept and what is lost -----

  /** Where the last variable that is expanded ends; the template alone decides it. */
  function LastEnd(v: seq<byte>, i: nat): (k: nat)
    requires i <= |v|
    ensures i <= k <= |v| && (k == i <==> NextVar(v, i).None?)
    decreases |v| - i
  {
    match NextVar(v, i)
    case None => i
    case Some((s, e)) => LastEnd(v, e + 1)
  }

  /** The template with its expanded variables replaced by their values and all other text kept. */
  function Replaced(look: seq<byte> -> Option<seq<byte>>, v: seq<byte>, i: nat): seq<byte>
    requires i <= |v|
    decreases |v| - i
  {
    match NextVar(v, i)
    case None => v[i..]
    case Some((s, e)) => v[i..s - 2] + ValueOr(look(v[s..e])) + Replaced(look, v, e + 1)
  }

  lemma {:induction false} ExpandEnd(look: seq<byte> -> Option<seq<byte>>, v: seq<byte>, i: nat)
    requires i <= |v|
    ensures var x := Expand(look, v, i);
            && x.from == LastEnd(v, i) && x.any == (LastEnd(v, i) > i)
            && Replaced(look, v, i) == x.text + v[LastEnd(v, i)..]
    decreases |v| - i
  {
    hide NextVar, ValueOr, Expand, Replaced, LastEnd;
    if NextVar(v, i).Some? {
      var (s, e) := NextVar(v, i).value;
      ExpandSome(look, v, i, s, e);
      ReplacedSome(look, v, i, s, e);
      ExpandEnd(look, v, e + 1);
      var head, x := v[i..s - 2] + ValueOr(look(v[s..e])), Expand(look, v, e + 1);
      Assoc(head, x.text, v[LastEnd(v, e + 1)..]);
    } else {
      ExpandNone(look, v, i);
      ReplacedNone(look, v, i);
      assert [] + v[i..] == v[i..];
    }
  }

  lemma ReplacedNone(look: seq<byte> -> Option<seq<byte>>, v: seq<byte>, i: nat)
    requires i <= |v| && NextVar(v, i).None?
    ensures Replaced(look, v, i) == v[i..] && LastEnd(v, i) == i
  {
    hide NextVar;
  }

  lemma ReplacedSome(look: seq<byte> -> Option<seq<byte>>, v: seq<byte>, i: nat, s: nat, e: nat)
    requires i <= |v| && NextVar(v, i) == Some((s, e))
    ensures Replaced(look, v, i) == v[i..s - 2] + ValueOr(look(v[s..e])) + Replaced(look, v, e + 1)
    ensures LastEnd(v, i) == LastEnd(v, e + 1) > i
  {
    hide NextVar, ValueOr;
  }

  /** The translation keeps all text around the variables exactly when it expands none, or no further "${" stands behind
      the last one it expands. */
  lemma KeepsTail(look: seq<byte> -> Option<seq<byte>>, v: seq<byte>)
    ensures Translate(look, v) == Replaced(look, v, 0) <==> LastEnd(v, 0) == 0 || FindVar(v, LastEnd(v, 0)) < 0
  {
    hide Expand, Replaced, LastEnd, FindVar, FindClose, NextVar;
    ExpandEnd(look, v, 0);
    var x := Expand(look, v, 0);
    if !x.any {
      assert v[0..] == v;
      NothingReplaced(look, v);
    } else if FindVar(v, x.from) >= 0 {
      assert |Translate(look, v)| < |x.text + v[x.from..]|;
    }
  }

  /** What is dropped otherwise: the text behind the last variable expanded, up to and with the next "}", or all of it. */
  lemma DropsExactly(look: seq<byte> -> Option<seq<byte>>, v: seq<byte>)
    requires LastEnd(v, 0) > 0 && FindVar(v, LastEnd(v, 0)) >= 0
    ensures var k := LastEnd(v, 0); var e := FindClose(v, k);
            exists text :: Replaced(look, v, 0) == text + v[k..] && Translate(look, v) == text + if e < 0 then [] else v[e + 1..]
  {
    hide Expand, Replaced, LastEnd, FindVar, FindClose, NextVar;
    ExpandEnd(look, v, 0);
    var x := Expand(look, v, 0);
    if FindClose(v, x.from) < 0 {
      assert x.text + [] == x.text;
    }
  }

  lemma NothingReplaced(look: seq<byte> -> Option<seq<byte>>, v: seq<byte>)
    requires LastEnd(v, 0) == 0
    ensures Replaced(look, v, 0) == v
  {
    assert v[0..] == v;
  }

  lemma FoundVar(v: seq<byte>, i: nat, k: nat)
    requires i <= k && VarAt(v, k) && forall j :: i <= j < k ==> !VarAt(v, j)
    ensures FindVar(v, i) == k
  {
    hide VarAt, FindVar;
    assert k < |v| by { VarFits(v, k); }
  }

  lemma VarFits(v: seq<byte>, k: nat)
    requires VarAt(v, k)
    ensures k + 2 <= |v|
  {
  }

  lemma FoundClose(v: seq<byte>, i: nat, k: nat)
    requires i <= k < |v| && v[k] == CLOSE && forall j :: i <= j < k ==> v[j] != CLOSE
    ensures FindClose(v, i) == k
  {
    hide FindClose;
  }

  /** A stray "}" behind a variable, and an unclosed one, make the translator drop text: "${A}B}${A}" and "${A}B${". */
  lemma DropsText(look: seq<byte> -> Option<seq<byte>>)
    requires look([65]) == Some([97])
    ensures Translate(look, [36, 123, 65, 125, 66, 125, 36, 123, 65, 125]) == [97, 36, 123, 65, 125]
    ensures Translate(look, [36, 123, 65, 125, 66, 36, 123]) == [97]
  {
    StrayClose(look);
    Unfinished(look);
  }

  lemma StrayClose(look: seq<byte> -> Option<seq<byte>>)
    requires look([65]) == Some([97])
    ensures Translate(look, [36, 123, 65, 125, 66, 125, 36, 123, 65, 125]) == [97, 36, 123, 65, 125]
  {
    var v: seq<byte> := [36, 123, 65, 125, 66, 125, 36, 123, 65, 125];
    StrayFound(v);
    hide *;
    ExpandOne(look, v);
    CopiedBehind(look, v, 6);
    assert v[6..] == [36, 123, 65, 125] && [97] + v[6..] == [97, 36, 123, 65, 125];
  }

  lemma StrayFound(v: seq<byte>)
    requires v == [36, 123, 65, 125, 66, 125, 36, 123, 65, 125]
    ensures v[..4] == [36, 123, 65, 125] && NextVar(v, 4).None? && CopyFrom(v, 4) == 6
  {
    assert !VarAt(v, 4) && !VarAt(v, 5) && VarAt(v, 6);
    hide FindVar, FindClose, VarAt;
    FoundVar(v, 4, 6);
    FoundClose(v, 4, 5);
  }

  lemma CopiedBehind(look: seq<byte> -> Option<seq<byte>>, v: seq<byte>, k: nat)
    requires |v| > 4 && Expand(look, v, 0) == Expanded([97], true, 4) && CopyFrom(v, 4) == k
    ensures k <= |v| && Translate(look, v) == [97] + v[k..]
  {
    hide Expand, CopyFrom;
  }

  lemma Unfinished(look: seq<byte> -> Option<seq<byte>>)
    requires look([65]) == Some([97])
    ensures Translate(look, [36, 123, 65, 125, 66, 36, 123]) == [97]
  {
    var v: seq<byte> := [36, 123, 65, 125, 66, 36, 123];
    assert !VarAt(v, 4) && VarAt(v, 5);
    hide FindVar, FindClose, Expand, VarAt;
    FoundVar(v, 4, 5);
    assert v[..4] == [36, 123, 65, 125];
    assert v[4] != CLOSE && v[5] != CLOSE && v[6] != CLOSE && FindClose(v, 4) == -1;
    ExpandOne(look, v);
  }

  /** A template that starts "${A}" and of which nothing more is expanded. */
  lemma ExpandOne(look: seq<byte> -> Option<seq<byte>>, v: seq<byte>)
    requires look([65]) == Some([97]) && |v| > 4 && v[..4] == [36, 123, 65, 125] && NextVar(v, 4).None?
    ensures Expand(look, v, 0) == Expanded([97], true, 4)
  {
    FirstIsA(v);
    hide FindVar, FindClose, Expand, NextVar, VarAt;
    ExpandNone(look, v, 4);
    ExpandSome(look, v, 0, 2, 3);
    assert v[2..3] == [65] && v[0..0] + [97] + [] == [97];
  }

  lemma FirstIsA(v: seq<byte>)
    requires |v| > 4 && v[..4] == [36, 123, 65, 125]
    ensures NextVar(v, 0) == Some((2, 3)) && v[2..3] == [65]
  {
    assert v[0] == v[..4][0] && v[1] == v[..4][1] && v[2] == v[..4][2] && v[3] == v[..4][3];
    assert VarAt(v, 0);
    hide FindVar, FindClose;
    FoundVar(v, 0, 0);
    FoundClose(v, 0, 3);
  }

  // ----- templates -----

  datatype Part = Part(literal: seq<byte>, name: seq<byte>)

  datatype Template = Template(parts: seq<Part>, tail: seq<byte>)

  predicate PlainText(s: seq<byte>) {
    CLOSE !in s && forall j :: 0 <= j < |s| ==> !VarAt(s, j)
  }

  predicate IsPart(p: Part) {
    PlainText(p.literal) && 0 < |p.name| < NAME_MAX && CLOSE !in p.name
  }

  predicate IsTemplate(t: Template) {
    (forall i :: 0 <= i < |t.parts| ==> IsPart(t.parts[i])) && PlainText(t.tail)
  }

  function RenderPart(p: Part): seq<byte> {
    p.literal + [DOLLAR, OPEN] + p.name + [CLOSE]
  }

  function Render(parts: seq<Part>): seq<byte> {
    if parts == [] then [] else RenderPart(parts[0]) + Render(parts[1..])
  }

  function Meaning(look: seq<byte> -> Option<seq<byte>>, parts: seq<Part>): seq<byte> {
    if parts == [] then [] else parts[0].literal + ValueOr(look(parts[0].name)) + Meaning(look, parts[1..])
  }

  lemma VarInSuffix(v: seq<byte>, i: nat, t: seq<byte>, j: nat)
    requires i <= |v| && v[i..] == t
    ensures VarAt(v, i + j) <==> VarAt(t, j)
  {
    if j + 2 <= |t| {
      assert v[i + j] == t[j] && v[i + j + 1] == t[j + 1];
    }
  }

  lemma NoVarInTail(v: seq<byte>, i: nat)
    requires i <= |v| && PlainText(v[i..])
    ensures FindVar(v, i) < 0
  {
    var k := FindVar(v, i);
    if k >= 0 {
      VarInSuffix(v, i, v[i..], k - i);
    }
  }

  /** The first variable of a rendered template is found where it was put. */
  lemma FirstVar(v: seq<byte>, i: nat, p: Part, rest: seq<byte>)
    requires i <= |v| && v[i..] == RenderPart(p) + rest && IsPart(p)
    ensures FindVar(v, i) == i + |p.literal|
    ensures FindClose(v, i) == i + |p.literal| + 2 + |p.name|
  {
    hide FindVar, FindClose;
    var t, k := v[i..], |p.literal|;
    assert t[k] == DOLLAR && t[k + 1] == OPEN && t[k + 2 + |p.name|] == CLOSE;
    VarInSuffix(v, i, t, k);
    forall j | i <= j < i + k
      ensures !VarAt(v, j)
    {
      VarInSuffix(v, i, t, j - i);
      assert t[j - i] == p.literal[j - i];
      assert !VarAt(p.literal, j - i);
    }
    forall j | i <= j < i + k + 2 + |p.name|
      ensures v[j] != CLOSE
    {
      var c := t[j - i];
      assert c == v[j];
      assert j - i < k ==> c == p.literal[j - i];
      assert j - i >= k + 2 ==> c == p.name[j - i - k - 2];
    }
    assert v[i + k + 2 + |p.name|] == CLOSE;
  }

  /** The pieces of a rendered template around its first variable. */
  lemma FirstPieces(v: seq<byte>, i: nat, p: Part, rest: seq<byte>)
    requires i <= |v| && v[i..] == RenderPart(p) + rest
    ensures var s := i + |p.literal| + 2;
            s + |p.name| + 1 <= |v| && v[i..s - 2] == p.literal && v[s..s + |p.name|] == p.name
            && v[s + |p.name| + 1..] == rest
  {
    var t, k := v[i..], |p.literal|;
    assert v[i..i + k] == t[..k] == p.literal;
    assert v[i + k + 2..i + k + 2 + |p.name|] == t[k + 2..k + 2 + |p.name|] == p.name;
    assert v[i + k + 2 + |p.name| + 1..] == t[k + 2 + |p.name| + 1..] == rest;
  }

  lemma {:induction false} ExpandRendered(look: seq<byte> -> Option<seq<byte>>, v: seq<byte>, i: nat, parts: seq<Part>, tail: seq<byte>)
    requires i <= |v| && v[i..] == Render(parts) + tail && IsTemplate(Template(parts, tail))
    ensures Expand(look, v, i) == Expanded(Meaning(look, parts), parts != [], |v| - |tail|)
    decreases |parts|
  {
    hide FindVar, FindClose, PlainText, Expand;
    if parts == [] {
      assert v[i..] == tail;
      NoVarInTail(v, i);
      ExpandNone(look, v, i);
    } else {
      var p, rest := parts[0], Render(parts[1..]) + tail;
      assert v[i..] == RenderPart(p) + rest;
      FirstVar(v, i, p, rest);
      FirstPieces(v, i, p, rest);
      ExpandSome(look, v, i, i + |p.literal| + 2, i + |p.literal| + 2 + |p.name|);
      assert IsTemplate(Template(parts[1..], tail));
      ExpandRendered(look, v, i + |RenderPart(p)|, parts[1..], tail);
    }
  }

  /** A template of literals and variables translates to the literals with the values in between. */
  lemma TranslateTemplate(look: seq<byte> -> Option<seq<byte>>, t: Template)
    requires IsTemplate(t)
    ensures Translate(look, Render(t.parts) + t.tail) == Meaning(look, t.parts) + t.tail
  {
    hide FindVar, FindClose, PlainText, Expand;
    var v := Render(t.parts) + t.tail;
    assert v[0..] == v;
    ExpandRendered(look, v, 0, t.parts, t.tail);
    assert v[|v| - |t.tail|..] == t.tail;
    NoVarInTail(v, |v| - |t.tail|);
    if t.parts == [] {
      assert v == t.tail;
    }
  }

  /** A name is expanded exactly if it is not empty and shorter than 4096 bytes. */
  lemma NameLimit(look: seq<byte> -> Option<seq<byte>>, name: seq<byte>)
    requires CLOSE !in name
    ensures var v := [36, 123] + name + [125];
            Translate(look, v) == if 0 < |name| < 4096 then (if look(name).Some? then look(name).value else []) else v
  {
    if 0 < |name| < 4096 {
      NameExpanded(look, name);
    } else {
      NameKept(look, name);
    }
  }

  lemma NameExpanded(look: seq<byte> -> Option<seq<byte>>, name: seq<byte>)
    requires CLOSE !in name && 0 < |name| < 4096
    ensures Translate(look, [36, 123] + name + [125]) == if look(name).Some? then look(name).value else []
  {
    hide Translate;
    var t := Template([Part([], name)], []);
    assert t.parts[1..] == [] && Render(t.parts) + t.tail == [36, 123] + name + [125];
    TranslateTemplate(look, t);
    assert Meaning(look, t.parts) + t.tail == ValueOr(look(name));
  }

  lemma NameKept(look: seq<byte> -> Option<seq<byte>>, name: seq<byte>)
    requires CLOSE !in name && !(0 < |name| < 4096)
    ensures Translate(look, [36, 123] + name + [125]) == [36, 123] + name + [125]
  {
    hide FindVar, FindClose, Expand;
    var v := [36, 123] + name + [125];
    assert VarAt(v, 0);
    FoundVar(v, 0, 0);
    assert forall j :: 2 <= j < 2 + |name| ==> v[j] == name[j - 2];
    FoundClose(v, 0, 2 + |name|);
    ExpandNone(look, v, 0);
  }

  lemma {:induction false} MeaningSame(a: seq<byte> -> Option<seq<byte>>, b: seq<byte> -> Option<seq<byte>>, parts: seq<Part>)
    requires forall k: seq<byte> :: a(k) == b(k)
    ensures Meaning(a, parts) == Meaning(b, parts)
  {
    if parts != [] {
      MeaningSame(a, b, parts[1..]);
    }
  }
}
