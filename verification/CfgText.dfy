/** The configuration store as a list of entries, newest first, and its text form.
    Strings are C strings: a zero character ends them, so no stored string has one. */
module CfgText {
  import opened Prelude

  datatype Entry = Entry(key: string, value: string)

  // Bytes that one fgets can take from a file: CFG_MAX_LINE without the terminator.
  const MAX_CHUNK: nat := 1023

  // ---- trimming ----

  predicate IsBlank(c: char) {
    c == ' ' || c == '\t' || c == '\n'
  }

  function TrimLeft(s: string): string {
    if s != "" && IsBlank(s[0]) then TrimLeft(s[1..]) else s
  }

  function TrimRight(s: string): string {
    if s != "" && IsBlank(s[|s| - 1]) then TrimRight(s[..|s| - 1]) else s
  }

  lemma {:induction false} TrimLeftIsSuffix(s: string)
    ensures var t := TrimLeft(s);
            (t == "" || !IsBlank(t[0])) && |t| <= |s| && t == s[|s| - |t|..]
  {
    if s != "" && IsBlank(s[0]) {
      TrimLeftIsSuffix(s[1..]);
    }
  }

  lemma {:induction false} TrimRightIsPrefix(s: string)
    ensures var t := TrimRight(s);
            (t == "" || !IsBlank(t[|t| - 1])) && t <= s
  {
    if s != "" && IsBlank(s[|s| - 1]) {
      TrimRightIsPrefix(s[..|s| - 1]);
    }
  }

  predicate Trimmed(s: string) {
    s == "" || (!IsBlank(s[0]) && !IsBlank(s[|s| - 1]))
  }

  // What is left has no blank at either end and nothing that was not there.
  function Trim(s: string): (t: string)
    ensures Trimmed(t) && |t| <= |s|
    ensures forall c :: c in t ==> c in s
    ensures Trimmed(s) ==> t == s
  {
    var l := TrimLeft(s);
    var t := TrimRight(l);
    TrimLeftIsSuffix(s);
    TrimRightIsPrefix(l);
    assert forall c :: c in t ==> c in l;
    t
  }

  lemma TrimLeftStep(s: string, i: nat)
    requires i < |s| && IsBlank(s[i])
    ensures TrimLeft(s[i..]) == TrimLeft(s[i + 1..])
  {
    assert s[i..][1..] == s[i + 1..];
  }

  lemma TrimRightStep(s: string, n: nat)
    requires 0 < n <= |s| && IsBlank(s[n - 1])
    ensures TrimRight(s[..n]) == TrimRight(s[..n - 1])
  {
    assert s[..n][..n - 1] == s[..n - 1];
  }

  // t is s from position i on without the blanks around it.
  ghost predicate TrimsAt(s: string, t: string, i: nat) {
    && i + |t| <= |s| && t == s[i..i + |t|] && Trimmed(t)
    && forall j :: 0 <= j < |s| && (j < i || i + |t| <= j) ==> IsBlank(s[j])
  }

  // Nothing but spaces, tabs and newlines goes, and none of them is left at an end.
  lemma TrimDrops(s: string) returns (i: nat)
    ensures var t := Trim(s);
            && i + |t| <= |s| && t == s[i..i + |t|]
            && (t != "" ==> t[0] !in {' ', '\t', '\n'} && t[|t| - 1] !in {' ', '\t', '\n'})
            && (forall j :: 0 <= j < i ==> s[j] in {' ', '\t', '\n'})
            && (forall j :: i + |t| <= j < |s| ==> s[j] in {' ', '\t', '\n'})
  {
    i := TrimTrims(s);
  }

  lemma {:induction false} TrimLeftDropsBlanks(s: string)
    ensures |TrimLeft(s)| <= |s| && forall j :: 0 <= j < |s| - |TrimLeft(s)| ==> IsBlank(s[j])
  {
    if s != "" && IsBlank(s[0]) {
      TrimLeftDropsBlanks(s[1..]);
      assert forall j :: 1 <= j < |s| ==> s[j] == s[1..][j - 1];
    }
  }

  lemma {:induction false} TrimRightDropsBlanks(s: string)
    ensures |TrimRight(s)| <= |s| && forall j :: |TrimRight(s)| <= j < |s| ==> IsBlank(s[j])
  {
    if s != "" && IsBlank(s[|s| - 1]) {
      TrimRightDropsBlanks(s[..|s| - 1]);
    }
  }

  lemma TrimTrims(s: string) returns (i: nat)
    ensures TrimsAt(s, Trim(s), i)
  {
    var l := TrimLeft(s);
    TrimLeftIsSuffix(s);
    TrimRightIsPrefix(l);
    TrimLeftDropsBlanks(s);
    TrimRightDropsBlanks(l);
    i := |s| - |l|;
    forall j | i + |Trim(s)| <= j < |s|
      ensures IsBlank(s[j])
    {
      assert s[j] == l[j - i];
    }
  }

  // Trimming removes the blanks at both ends and nothing else, and that is all
  // there is to say about it.
  lemma TrimIff(s: string, t: string)
    ensures t == Trim(s) <==> exists i: nat :: TrimsAt(s, t, i)
  {
    var i := TrimTrims(s);
    if j: nat :| TrimsAt(s, t, j) {
      if t != "" {
        TrimsOnce(s, t, j, Trim(s), i);
      } else if Trim(s) != "" {
        TrimsOnce(s, Trim(s), i, t, j);
      }
    }
  }

  lemma TrimsOnce(s: string, t: string, i: nat, u: string, j: nat)
    requires TrimsAt(s, t, i) && TrimsAt(s, u, j) && t != ""
    ensures t == u
  {
    assert !IsBlank(s[i]) && !IsBlank(s[i + |t| - 1]);
    assert j <= i && i + |t| <= j + |u|;
    assert !IsBlank(s[j]) && !IsBlank(s[j + |u| - 1]);
  }

  method CfgTrim(str: string) returns (t: string)
    ensures t == Trim(str)
  {
    var temp := 0;
    assert str[temp..] == str;
    while temp < |str| && IsBlank(str[temp])
      invariant 0 <= temp <= |str| && TrimLeft(str[temp..]) == TrimLeft(str)
    {
      TrimLeftStep(str, temp);
      temp := temp + 1;
    }
    var l := str[temp..];
    var len := |l|;
    assert l[..len] == l;
    while len > 0 && IsBlank(l[len - 1])
      invariant 0 <= len <= |l| && TrimRight(l[..len]) == TrimRight(l)
    {
      TrimRightStep(l, len);
      len := len - 1;
    }
    t := l[..len];
  }

  lemma TrimDropsNewline(s: string)
    requires Trimmed(s)
    ensures Trim(s + "\n") == s
  {
    assert TrimRight(s + "\n") == TrimRight((s + "\n")[..|s|]);
    assert (s + "\n")[..|s|] == s;
    if s == "" {
      assert TrimLeft("\n") == TrimLeft("\n"[1..]);
      assert "" + "\n" == "\n";
    }
  }

  lemma {:induction false} TrimRightOfLine(s: string)
    requires forall i :: 0 <= i < |s| - 1 ==> s[i] != '\n'
    ensures '\n' !in TrimRight(s)
  {
    if s != "" && IsBlank(s[|s| - 1]) {
      TrimRightOfLine(s[..|s| - 1]);
    }
  }

  // ---- the list ----

  // The position of the first entry with the key, or the length of the list.
  function Find(es: seq<Entry>, key: string): (i: nat)
    ensures i <= |es|
    ensures i < |es| ==> es[i].key == key
    ensures forall j :: 0 <= j < i ==> es[j].key != key
  {
    if es == [] || es[0].key == key then 0 else 1 + Find(es[1..], key)
  }

  function Get(es: seq<Entry>, key: string): Option<string> {
    var i := Find(es, Trim(key));
    if i < |es| then Some(es[i].value) else None
  }

  function Set(es: seq<Entry>, key: string, value: string): seq<Entry> {
    var e := Entry(Trim(key), Trim(value));
    var i := Find(es, e.key);
    if e.key == "" then es
    else if i < |es| then es[i := e]
    else [e] + es
  }

  function Delete(es: seq<Entry>, key: string): seq<Entry> {
    var i := Find(es, Trim(key));
    if i < |es| then es[..i] + es[i + 1..] else es
  }

  ghost predicate IsCString(s: string) {
    '\0' !in s
  }

  ghost predicate WellFormedEntry(e: Entry) {
    e.key != "" && Trimmed(e.key) && Trimmed(e.value) && IsCString(e.key) && IsCString(e.value)
  }

  // What every store is: distinct non-empty trimmed keys and trimmed values.
  ghost predicate WellFormed(es: seq<Entry>) {
    && (forall i :: 0 <= i < |es| ==> WellFormedEntry(es[i]))
    && (forall i, j :: 0 <= i < j < |es| ==> es[i].key != es[j].key)
  }

  lemma SetKeepsWellFormed(es: seq<Entry>, key: string, value: string)
    requires WellFormed(es) && IsCString(key) && IsCString(value)
    ensures WellFormed(Set(es, key, value))
  {
    var e, t, i := Entry(Trim(key), Trim(value)), Set(es, key, value), Find(es, Trim(key));
    if e.key != "" {
      assert WellFormedEntry(e);
      if i >= |es| {
        assert forall j :: 0 <= j < |es| ==> t[j + 1] == es[j];
        assert forall j :: 1 <= j < |t| ==> t[j] == es[j - 1];
      }
    }
  }

  lemma DeleteKeepsWellFormed(es: seq<Entry>, key: string)
    requires WellFormed(es)
    ensures WellFormed(Delete(es, key))
  {
    var t, i := Delete(es, key), Find(es, Trim(key));
    if i < |es| {
      assert forall j :: 0 <= j < |t| ==> t[j] == es[if j < i then j else j + 1];
    }
  }

  // A set changes the value in its place, or puts a new entry in front.
  lemma SetPlaces(es: seq<Entry>, key: string, value: string)
    ensures var t := Set(es, key, value);
            && (Trim(key) == "" ==> t == es)
            && (forall i :: 0 <= i < |es| && es[i].key == Trim(key) != ""
                            && (forall j :: 0 <= j < i ==> es[j].key != Trim(key)) ==>
                  t == es[i := Entry(Trim(key), Trim(value))])
            && ((forall i :: 0 <= i < |es| ==> es[i].key != Trim(key)) && Trim(key) != "" ==>
                  t == [Entry(Trim(key), Trim(value))] + es)
  {}

  // ---- the list is a finite map ----

  function AsMap(es: seq<Entry>): map<string, string> {
    if es == [] then map[] else AsMap(es[1..])[es[0].key := es[0].value]
  }

  // The map has for every key the value of its first entry.
  lemma {:induction false} AsMapIsFind(es: seq<Entry>)
    ensures forall k :: k in AsMap(es) <==> Find(es, k) < |es|
    ensures forall k :: k in AsMap(es) ==> AsMap(es)[k] == es[Find(es, k)].value
  {
    if es != [] {
      AsMapIsFind(es[1..]);
    }
  }

  lemma FindAtMost(es: seq<Entry>, key: string, i: nat)
    requires i < |es| && es[i].key == key
    ensures Find(es, key) <= i
  {}

  lemma FindUnique(es: seq<Entry>, i: nat)
    requires WellFormed(es) && i < |es|
    ensures Find(es, es[i].key) == i
  {}

  // Over any store, the operations are the map's: an empty key is ignored, a get
  // sees the last value set under the trimmed key, a delete removes that key alone.
  lemma {:induction false} OperationsRefineMap(es: seq<Entry>, key: string, value: string)
    requires WellFormed(es) && IsCString(key) && IsCString(value)
    ensures AsMap(Set(es, key, value)) ==
            if Trim(key) == "" then AsMap(es) else AsMap(es)[Trim(key) := Trim(value)]
    ensures AsMap(Delete(es, key)) == AsMap(es) - {Trim(key)}
    ensures Get(es, key) == if Trim(key) in AsMap(es) then Some(AsMap(es)[Trim(key)]) else None
  {
    if Trim(key) != "" {
      SetIsMapUpdate(es, key, value);
    }
    DeleteIsMapRemove(es, key);
    AsMapIsFind(es);
  }

  lemma {:induction false} SameMap(es: seq<Entry>, m: map<string, string>)
    requires forall k :: Find(es, k) < |es| <==> k in m
    requires forall k :: k in m ==> es[Find(es, k)].value == m[k]
    ensures AsMap(es) == m
  {
    AsMapIsFind(es);
    assert AsMap(es).Keys == m.Keys;
  }

  lemma {:induction false} SetIsMapUpdate(es: seq<Entry>, key: string, value: string)
    requires WellFormed(es) && IsCString(key) && IsCString(value) && Trim(key) != ""
    ensures AsMap(Set(es, key, value)) == AsMap(es)[Trim(key) := Trim(value)]
  {
    AsMapIsFind(es);
    var t := Set(es, key, value);
    var m := AsMap(es)[Trim(key) := Trim(value)];
    forall k
      ensures Find(t, k) < |t| <==> k in m
      ensures k in m ==> t[Find(t, k)].value == m[k]
    {
      FindAfterSet(es, key, value, k);
    }
    SameMap(t, m);
  }

  lemma FindAfterSet(es: seq<Entry>, key: string, value: string, k: string)
    requires WellFormed(es) && IsCString(key) && IsCString(value) && Trim(key) != ""
    ensures var t := Set(es, key, value);
            if k == Trim(key) then Find(t, k) < |t| && t[Find(t, k)].value == Trim(value)
            else (Find(t, k) < |t| <==> Find(es, k) < |es|)
                 && (Find(t, k) < |t| ==> t[Find(t, k)].value == es[Find(es, k)].value)
  {
    SetKeepsWellFormed(es, key, value);
    var t, i := Set(es, key, value), Find(es, Trim(key));
    if k == Trim(key) {
      assert t[if i < |es| then i else 0] == Entry(k, Trim(value));
      FindUnique(t, if i < |es| then i else 0);
    } else {
      var j := Find(es, k);
      if j < |es| {
        var d := if i < |es| then j else j + 1;
        assert t[d] == es[j];
        FindUnique(t, d);
      } else if i >= |es| {
        assert t[1..] == es;
      }
    }
  }

  lemma DeleteShifts(es: seq<Entry>, key: string)
    requires Find(es, Trim(key)) < |es|
    ensures var t, i := Delete(es, key), Find(es, Trim(key));
            |t| == |es| - 1 && forall n :: 0 <= n < |t| ==> t[n] == es[if n < i then n else n + 1]
  {
    var t, i := Delete(es, key), Find(es, Trim(key));
    assert t == es[..i] + es[i + 1..];
    forall n | 0 <= n < |t|
      ensures t[n] == es[if n < i then n else n + 1]
    {
      assert n < i ==> t[n] == es[..i][n];
      assert n >= i ==> t[n] == es[i + 1..][n - i];
    }
  }

  lemma DeletedNotFound(es: seq<Entry>, key: string, k: string)
    requires WellFormed(es) && Find(es, Trim(key)) < |es|
    requires Find(Delete(es, key), k) < |Delete(es, key)|
    ensures k != Trim(key) && Find(es, k) < |es|
    ensures Delete(es, key)[Find(Delete(es, key), k)] == es[Find(es, k)]
  {
    DeleteShifts(es, key);
    var d, i := Find(Delete(es, key), k), Find(es, Trim(key));
    FindUnique(es, i);
    FindUnique(es, if d < i then d else d + 1);
  }

  lemma OthersFound(es: seq<Entry>, key: string, k: string)
    requires WellFormed(es) && Find(es, Trim(key)) < |es|
    requires k != Trim(key) && Find(es, k) < |es|
    ensures Find(Delete(es, key), k) < |Delete(es, key)|
  {
    DeleteShifts(es, key);
    var j, i := Find(es, k), Find(es, Trim(key));
    FindAtMost(Delete(es, key), k, if j < i then j else j - 1);
  }

  lemma FindAfterDelete(es: seq<Entry>, key: string, k: string)
    requires WellFormed(es)
    ensures var t := Delete(es, key);
            && (Find(t, k) < |t| <==> Find(es, k) < |es| && k != Trim(key))
            && (Find(t, k) < |t| ==> t[Find(t, k)].value == es[Find(es, k)].value)
  {
    var t := Delete(es, key);
    if Find(es, Trim(key)) < |es| {
      if Find(t, k) < |t| {
        DeletedNotFound(es, key, k);
      }
      if k != Trim(key) && Find(es, k) < |es| {
        OthersFound(es, key, k);
      }
    }
  }

  lemma {:induction false} DeleteIsMapRemove(es: seq<Entry>, key: string)
    requires WellFormed(es)
    ensures AsMap(Delete(es, key)) == AsMap(es) - {Trim(key)}
  {
    var t, m := Delete(es, key), AsMap(es) - {Trim(key)};
    AsMapIsFind(es);
    forall k
      ensures Find(t, k) < |t| <==> k in m
      ensures k in m ==> t[Find(t, k)].value == m[k]
    {
      FindAfterDelete(es, key, k);
    }
    SameMap(t, m);
  }

  // ---- the text form ----

  // The part of s before the first c, and whether there is one: strchr.
  function Before(s: string, c: char): (t: string)
    ensures t <= s && c !in t && (c !in s ==> t == s) && (c in s ==> |t| < |s| && s[|t|] == c)
  {
    if s == "" || s[0] == c then "" else [s[0]] + Before(s[1..], c)
  }

  // One fgets of at most n bytes.
  function Chunk(text: string, n: nat): (line: string)
    ensures line <= text && |line| <= n && (text != "" && n > 0 ==> line != "")
    ensures forall i :: 0 <= i < |line| - 1 ==> line[i] != '\n'
  {
    if text == "" || n == 0 then ""
    else if text[0] == '\n' then "\n"
    else
      var rest := Chunk(text[1..], n - 1);
      assert text[..1] + text[1..][..|rest|] == text[..1 + |rest|];
      [text[0]] + rest
  }

  function LoadLine(es: seq<Entry>, line: string): seq<Entry> {
    var content := Before(Before(line, '\0'), '#');
    var key := Before(content, '=');
    if '=' in content then Set(es, key, content[|key| + 1..]) else es
  }

  function Load(es: seq<Entry>, text: string): seq<Entry>
    decreases |text|
  {
    if text == "" then es
    else
      var line := Chunk(text, MAX_CHUNK);
      Load(LoadLine(es, line), text[|line|..])
  }

  function Save(es: seq<Entry>): string {
    if es == [] then "" else es[0].key + "=" + es[0].value + "\n" + Save(es[1..])
  }

  // What the text form can express: the line splits at its only '=' before the
  // value, nothing in it starts a comment, and one fgets takes all but its newline.
  ghost predicate Savable(e: Entry) {
    && '=' !in e.key && '#' !in e.key && '\n' !in e.key
    && '#' !in e.value && '\n' !in e.value
    && |e.key| + 1 + |e.value| <= MAX_CHUNK
  }

  // The text has one line for each entry, in order, and nothing else.
  lemma {:induction false} SaveAppends(es: seq<Entry>, e: Entry)
    ensures Save([]) == ""
    ensures Save(es + [e]) == Save(es) + (e.key + "=" + e.value + "\n")
  {
    if es == [] {
      assert [e][1..] == [];
    } else {
      assert (es + [e])[1..] == es[1..] + [e];
      SaveAppends(es[1..], e);
      Regroup(es[0].key + "=" + es[0].value + "\n", Save(es[1..]), e.key + "=" + e.value + "\n");
    }
  }

  // ---- whatever is loaded can be saved ----

  lemma SetMembers(es: seq<Entry>, key: string, value: string)
    ensures forall x | x in Set(es, key, value) :: x in es || x == Entry(Trim(key), Trim(value))
  {}

  lemma LinePartsSavable(line: string, content: string, key: string, value: string)
    requires |line| <= MAX_CHUNK && forall i :: 0 <= i < |line| - 1 ==> line[i] != '\n'
    requires content <= line && '#' !in content && content == key + "=" + value && '=' !in key
    ensures Savable(Entry(Trim(key), Trim(value)))
  {
    assert forall i :: 0 <= i < |key| ==> key[i] == content[i] == line[i];
    assert forall i :: 0 <= i < |value| ==> value[i] == content[|key| + 1 + i] == line[|key| + 1 + i];
    TrimOfLine(key);
    TrimOfLine(value);
  }

  lemma LoadLineSavable(es: seq<Entry>, line: string)
    requires forall e | e in es :: Savable(e)
    requires |line| <= MAX_CHUNK && forall i :: 0 <= i < |line| - 1 ==> line[i] != '\n'
    ensures forall e | e in LoadLine(es, line) :: Savable(e)
  {
    var content := Before(Before(line, '\0'), '#');
    if '=' in content {
      var key := Before(content, '=');
      var value := content[|key| + 1..];
      assert content == key + "=" + value;
      LinePartsSavable(line, content, key, value);
      SetMembers(es, key, value);
    }
  }

  lemma TrimOfLine(s: string)
    requires forall i :: 0 <= i < |s| - 1 ==> s[i] != '\n'
    ensures '\n' !in Trim(s)
  {
    var l := TrimLeft(s);
    TrimLeftIsSuffix(s);
    assert forall i :: 0 <= i < |l| ==> l[i] == s[|s| - |l| + i];
    TrimRightOfLine(l);
  }

  lemma {:induction false} LoadedIsSavable(es: seq<Entry>, text: string)
    requires forall e | e in es :: Savable(e)
    ensures forall e | e in Load(es, text) :: Savable(e)
    decreases |text|
  {
    if text != "" {
      var line := Chunk(text, MAX_CHUNK);
      LoadLineSavable(es, line);
      LoadedIsSavable(LoadLine(es, line), text[|line|..]);
    }
  }

  // ---- a savable entry comes back from its line ----

  lemma {:induction false} BeforeFirst(a: string, c: char, rest: string)
    requires c !in a
    ensures Before(a + [c] + rest, c) == a
  {
    if a == "" {
      assert a + [c] + rest == [c] + rest;
    } else {
      assert (a + [c] + rest)[1..] == a[1..] + [c] + rest;
      BeforeFirst(a[1..], c, rest);
    }
  }

  lemma {:induction false} ChunkTakesLine(a: string, rest: string, n: nat)
    requires '\n' !in a
    ensures |a| < n ==> Chunk(a + "\n" + rest, n) == a + "\n"
    ensures |a| == n ==> Chunk(a + "\n" + rest, n) == a
  {
    if a == "" {
      assert a + "\n" + rest == "\n" + rest;
    } else {
      assert (a + "\n" + rest)[1..] == a[1..] + "\n" + rest;
      if |a| <= n {
        ChunkTakesLine(a[1..], rest, n - 1);
      }
    }
  }

  lemma {:induction false} BeforeAbsent(s: string, c: char)
    requires c !in s
    ensures Before(s, c) == s
  {}

  lemma {:induction false} LineSplits(es: seq<Entry>, key: string, value: string)
    requires '=' !in key && '#' !in key && '#' !in value && IsCString(key) && IsCString(value)
    ensures LoadLine(es, key + "=" + value) == Set(es, key, value)
  {
    var line := key + "=" + value;
    BeforeAbsent(line, '\0');
    BeforeAbsent(line, '#');
    BeforeFirst(key, '=', value);
    assert line == key + ['='] + value;
    assert line[|key|] == '=';
    assert line[|key| + 1..] == value;
  }

  // With or without its newline, the line of an entry sets that entry.
  lemma {:induction false} LineSetsEntry(es: seq<Entry>, e: Entry, value: string)
    requires WellFormedEntry(e) && Savable(e) && Find(es, e.key) == |es|
    requires value == e.value || value == e.value + "\n"
    ensures LoadLine(es, e.key + "=" + value) == [e] + es
  {
    LineSplits(es, e.key, value);
    TrimDropsNewline(e.value);
    assert Trim(e.key) == e.key && Trim(value) == e.value;
  }

  // ---- any line, with or without a comment ----

  lemma CutAtHash(a: string, line: string)
    requires '#' !in a && a + "#" <= line
    ensures Before(line, '#') == a
  {
    assert line == a + ['#'] + line[|a| + 1..];
    BeforeFirst(a, '#', line[|a| + 1..]);
  }

  lemma HashBeforeZero(a: string, line: string)
    requires IsCString(a) && a + "#" <= line
    ensures a + "#" <= Before(line, '\0')
  {
    var c := Before(line, '\0');
    assert forall i :: 0 <= i <= |a| ==> line[i] == (a + "#")[i] != '\0';
    assert |c| > |a|;
    assert c[..|a| + 1] == line[..|a| + 1];
  }

  // What follows '#' does not count.
  lemma CommentIgnored(es: seq<Entry>, a: string, rest: string)
    requires '#' !in a && IsCString(a)
    ensures LoadLine(es, a + "#" + rest) == LoadLine(es, a)
  {
    var line := a + "#" + rest;
    HashBeforeZero(a, line);
    CutAtHash(a, Before(line, '\0'));
    BeforeAbsent(a, '\0');
    BeforeAbsent(a, '#');
  }

  // A zero character ends what fgets has stored.
  lemma ZeroEndsLine(es: seq<Entry>, a: string, rest: string)
    requires IsCString(a)
    ensures LoadLine(es, a + "\0" + rest) == LoadLine(es, a)
  {
    assert a + "\0" + rest == a + ['\0'] + rest;
    BeforeFirst(a, '\0', rest);
    BeforeAbsent(a, '\0');
  }

  // A line without '=' sets nothing.
  lemma NoAssignment(es: seq<Entry>, a: string)
    requires '=' !in a
    ensures LoadLine(es, a) == es
  {
    var content := Before(Before(a, '\0'), '#');
    assert forall i :: 0 <= i < |content| ==> content[i] == a[i];
  }

  lemma CommentedAssignment(es: seq<Entry>, key: string, value: string, comment: string)
    requires '=' !in key && '#' !in key && '#' !in value && IsCString(key) && IsCString(value)
    ensures LoadLine(es, key + "=" + value) == Set(es, key, value)
    ensures LoadLine(es, key + "=" + value + "#" + comment) == Set(es, key, value)
  {
    LineSplits(es, key, value);
    CommentIgnored(es, key + "=" + value, comment);
  }

  // In a file a line that fits one fgets is taken with its newline; a longer one is
  // taken in pieces of 1023 characters.
  lemma LoadNextLine(es: seq<Entry>, line: string, rest: string)
    requires '\n' !in line && |line| <= 1022
    ensures Load(es, line + "\n" + rest) == Load(LoadLine(es, line + "\n"), rest)
  {
    ChunkTakesLine(line, rest, MAX_CHUNK);
    LoadFirst(es, line + "\n", rest);
  }

  lemma LoadPiece(es: seq<Entry>, piece: string, rest: string)
    requires '\n' !in piece && |piece| == 1023
    ensures Load(es, piece + rest) == Load(LoadLine(es, piece), rest)
  {
    ChunkTakesPiece(piece, rest, MAX_CHUNK);
    LoadFirst(es, piece, rest);
  }

  lemma {:induction false} ChunkTakesPiece(piece: string, rest: string, n: nat)
    requires '\n' !in piece && |piece| == n
    ensures Chunk(piece + rest, n) == piece
  {
    if n > 0 {
      assert (piece + rest)[1..] == piece[1..] + rest;
      ChunkTakesPiece(piece[1..], rest, n - 1);
    }
  }

  // Lines of a file: an assignment sets its key whatever comment follows it, and a
  // line that is all comment, or has no '=' before one, changes nothing.
  lemma LoadCommentedLine(es: seq<Entry>, key: string, value: string, comment: string, rest: string)
    requires '=' !in key && '#' !in key && '#' !in value && IsCString(key) && IsCString(value)
    requires '\n' !in key + "=" + value + "#" + comment && |key + "=" + value + "#" + comment| <= 1022
    ensures Load(es, key + "=" + value + "#" + comment + "\n" + rest) == Load(Set(es, key, value), rest)
  {
    var head := key + "=" + value + "#";
    LoadNextLine(es, head + comment, rest);
    Regroup(head, comment, "\n");
    CommentedAssignment(es, key, value, comment + "\n");
  }

  lemma LoadCommentLine(es: seq<Entry>, a: string, comment: string, rest: string)
    requires '=' !in a && '#' !in a && IsCString(a)
    requires '\n' !in a + "#" + comment && |a + "#" + comment| <= 1022
    ensures Load(es, a + "#" + comment + "\n" + rest) == Load(es, rest)
  {
    LoadNextLine(es, a + "#" + comment, rest);
    Regroup(a + "#", comment, "\n");
    CommentIgnored(es, a, comment + "\n");
    NoAssignment(es, a);
  }

  lemma LoadPlainLine(es: seq<Entry>, key: string, value: string, rest: string)
    requires '=' !in key && '#' !in key && '#' !in value && IsCString(key) && IsCString(value)
    requires '\n' !in key + "=" + value && |key + "=" + value| <= 1022
    ensures Load(es, key + "=" + value + "\n" + rest) == Load(Set(es, key, value), rest)
  {
    LoadNextLine(es, key + "=" + value, rest);
    Regroup(key + "=", value, "\n");
    LineSplits(es, key, value + "\n");
    TrimNewline(value);
  }

  // A newline at the end does not change what is left.
  lemma TrimNewline(s: string)
    ensures Trim(s + "\n") == Trim(s)
  {
    var i := TrimTrims(s);
    var t, line := Trim(s), s + "\n";
    assert line[i..i + |t|] == s[i..i + |t|];
    forall j | 0 <= j < |line| && (j < i || i + |t| <= j)
      ensures IsBlank(line[j])
    {
      assert j < |s| ==> line[j] == s[j];
    }
    assert TrimsAt(line, t, i);
    TrimIff(line, t);
  }

  lemma NewlineAloneIgnored(es: seq<Entry>)
    ensures LoadLine(es, "\n") == es
  {}

  lemma LoadFirst(es: seq<Entry>, line: string, rest: string)
    requires line != "" && Chunk(line + rest, MAX_CHUNK) == line
    ensures Load(es, line + rest) == Load(LoadLine(es, line), rest)
  {
    assert (line + rest)[|line|..] == rest;
  }

  lemma LoadNewline(es: seq<Entry>, rest: string)
    ensures Load(es, "\n" + rest) == Load(es, rest)
  {
    ChunkTakesLine("", rest, MAX_CHUNK);
    assert "" + "\n" + rest == "\n" + rest && "" + "\n" == "\n";
    LoadFirst(es, "\n", rest);
    NewlineAloneIgnored(es);
  }

  lemma SavedLineChunk(e: Entry, a: string, rest: string)
    requires Savable(e) && a == e.key + "=" + e.value
    ensures |a| < MAX_CHUNK ==> Chunk(a + "\n" + rest, MAX_CHUNK) == a + "\n"
    ensures |a| == MAX_CHUNK ==> Chunk(a + "\n" + rest, MAX_CHUNK) == a
  {
    assert '\n' !in a;
    ChunkTakesLine(a, rest, MAX_CHUNK);
  }

  lemma {:induction false} LoadShortLine(es: seq<Entry>, e: Entry, line: string, rest: string)
    requires WellFormedEntry(e) && Savable(e) && Find(es, e.key) == |es|
    requires line == e.key + "=" + (e.value + "\n") && Chunk(line + rest, MAX_CHUNK) == line
    ensures Load(es, line + rest) == Load([e] + es, rest)
  {
    LineSetsEntry(es, e, e.value + "\n");
    LoadFirst(es, line, rest);
  }

  // The line fills a whole fgets; its newline is left for the next one.
  lemma {:induction false} LoadLongLine(es: seq<Entry>, e: Entry, line: string, rest: string)
    requires WellFormedEntry(e) && Savable(e) && Find(es, e.key) == |es|
    requires line == e.key + "=" + e.value && Chunk(line + ("\n" + rest), MAX_CHUNK) == line
    ensures Load(es, line + ("\n" + rest)) == Load([e] + es, rest)
  {
    LineSetsEntry(es, e, e.value);
    LoadFirst(es, line, "\n" + rest);
    LoadNewline([e] + es, rest);
  }

  lemma Regroup(a: string, b: string, c: string)
    ensures a + b + c == a + (b + c)
  {}

  lemma {:induction false} LoadSavedLine(es: seq<Entry>, e: Entry, rest: string)
    requires WellFormedEntry(e) && Savable(e) && Find(es, e.key) == |es|
    ensures Load(es, e.key + "=" + e.value + "\n" + rest) == Load([e] + es, rest)
  {
    var head, end := e.key + "=", "\n";
    var a := head + e.value;
    SavedLineChunk(e, a, rest);
    if |a| < MAX_CHUNK {
      Regroup(head, e.value, end);
      LoadShortLine(es, e, a + end, rest);
    } else {
      Regroup(a, end, rest);
      LoadLongLine(es, e, a, rest);
    }
  }

  // ---- saving and loading ----

  function Reverse(es: seq<Entry>): (r: seq<Entry>)
    ensures |r| == |es|
  {
    if es == [] then [] else Reverse(es[1..]) + [es[0]]
  }

  lemma {:induction false} ReverseAt(es: seq<Entry>, i: nat)
    requires i < |es|
    ensures Reverse(es)[|es| - 1 - i] == es[i]
  {
    if i > 0 {
      ReverseAt(es[1..], i - 1);
    }
  }

  lemma ReverseTwice(es: seq<Entry>)
    ensures Reverse(Reverse(es)) == es
  {
    forall i | 0 <= i < |es|
      ensures Reverse(Reverse(es))[i] == es[i]
    {
      ReverseAt(es, i);
      ReverseAt(Reverse(es), |es| - 1 - i);
    }
  }

  lemma {:induction false} ReversedAt(es: seq<Entry>, i: nat)
    requires i < |es|
    ensures Reverse(es)[i] == es[|es| - 1 - i]
  {
    var j := |es| - 1 - i;
    ReverseAt(es, j);
    assert |es| - 1 - j == i;
  }

  lemma {:induction false} ReverseKeepsEntries(es: seq<Entry>)
    requires WellFormed(es)
    ensures WellFormed(Reverse(es)) && forall e :: e in Reverse(es) <==> e in es
  {
    var r := Reverse(es);
    forall i | 0 <= i < |es|
      ensures r[i] == es[|es| - 1 - i]
    {
      ReversedAt(es, i);
    }
    forall i | 0 <= i < |es|
      ensures es[i] == r[|es| - 1 - i]
    {
      ReverseAt(es, i);
    }
    assert forall i :: 0 <= i < |r| ==> WellFormedEntry(r[i]);
  }

  lemma {:induction false} ReverseFinds(es: seq<Entry>, k: string)
    requires WellFormed(es)
    ensures var r := Reverse(es);
            && (Find(r, k) < |r| <==> Find(es, k) < |es|)
            && (Find(es, k) < |es| ==> r[Find(r, k)] == es[Find(es, k)])
  {
    var r := Reverse(es);
    ReverseKeepsEntries(es);
    if Find(r, k) < |r| {
      ReversedAt(es, Find(r, k));
      FindUnique(es, |es| - 1 - Find(r, k));
    }
    if Find(es, k) < |es| {
      ReverseAt(es, Find(es, k));
      FindUnique(r, |es| - 1 - Find(es, k));
    }
  }

  lemma ReverseKeeps(es: seq<Entry>)
    requires WellFormed(es)
    ensures WellFormed(Reverse(es))
    ensures forall e :: e in Reverse(es) <==> e in es
    ensures AsMap(Reverse(es)) == AsMap(es)
  {
    ReverseKeepsEntries(es);
    AsMapIsFind(es);
    forall k
      ensures Find(Reverse(es), k) < |es| <==> k in AsMap(es)
      ensures k in AsMap(es) ==> Reverse(es)[Find(Reverse(es), k)].value == AsMap(es)[k]
    {
      ReverseFinds(es, k);
    }
    SameMap(Reverse(es), AsMap(es));
  }

  // The entries of es can be loaded, one by one, on top of acc.
  ghost predicate Loadable(es: seq<Entry>, acc: seq<Entry>)
    decreases es
  {
    es == [] || (
      && WellFormedEntry(es[0]) && Savable(es[0]) && Find(acc, es[0].key) == |acc|
      && Loadable(es[1..], [es[0]] + acc))
  }

  lemma {:induction false} DistinctLoadable(es: seq<Entry>, acc: seq<Entry>)
    requires WellFormed(es) && forall e | e in es :: Savable(e)
    requires forall e, x | e in es && x in acc :: e.key != x.key
    ensures Loadable(es, acc)
    decreases es
  {
    if es != [] {
      assert es[0] in es;
      assert forall e, x | e in es[1..] && x in [es[0]] + acc :: e.key != x.key;
      DistinctLoadable(es[1..], [es[0]] + acc);
    }
  }

  lemma {:induction false} LoadSaved(es: seq<Entry>, acc: seq<Entry>)
    requires Loadable(es, acc)
    ensures Load(acc, Save(es)) == Reverse(es) + acc
    decreases es
  {
    if es != [] {
      LoadSavedLine(acc, es[0], Save(es[1..]));
      LoadSaved(es[1..], [es[0]] + acc);
      assert Reverse(es[1..]) + ([es[0]] + acc) == Reverse(es[1..]) + [es[0]] + acc;
    }
  }

  // Saving a store and loading it into an empty one gives the reversed list back
  // exactly when every entry can be expressed in the text form.
  lemma {:induction false} SaveLoadIff(es: seq<Entry>)
    requires WellFormed(es)
    ensures Load([], Save(es)) == Reverse(es) <==>
            forall e | e in es ::
              && (forall c | c in e.key :: c != '=' && c != '#' && c != '\n')
              && (forall c | c in e.value :: c != '#' && c != '\n')
              && |e.key| + 1 + |e.value| <= 1023
  {
    SaveLoadSavable(es);
  }

  lemma {:induction false} SaveLoadSavable(es: seq<Entry>)
    requires WellFormed(es)
    ensures Load([], Save(es)) == Reverse(es) <==> forall e | e in es :: Savable(e)
  {
    ReverseKeeps(es);
    if forall e | e in es :: Savable(e) {
      DistinctLoadable(es, []);
      LoadSaved(es, []);
      assert Reverse(es) + [] == Reverse(es);
    }
    LoadedIsSavable([], Save(es));
  }

  // The same map comes back, and doing it twice is the identity on the list.
  lemma {:induction false} SaveLoadTwice(es: seq<Entry>)
    requires WellFormed(es) && forall e | e in es :: Savable(e)
    ensures AsMap(Load([], Save(es))) == AsMap(es)
    ensures Load([], Save(Load([], Save(es)))) == es
  {
    SaveLoadSavable(es);
    ReverseKeeps(es);
    SaveLoadSavable(Reverse(es));
    ReverseTwice(es);
  }
}
