/** The environment block of cmd_nvedit.c: a flat byte block of "name=value" strings, each ended by a
    NUL and the whole by a second NUL, searched and edited in place. */
module Environment {
  import opened CTypes

  const NUL := '\0'
  const EQUALS := '='
  const SPACE := ' '

  // ----- the abstract view: an ordered list of variables -----

  datatype Entry = Entry(name: string, value: string)

  ghost predicate IsCString(s: string) {
    forall i :: 0 <= i < |s| ==> s[i] != NUL
  }

  ghost predicate ValidEntry(e: Entry) {
    && IsCString(e.name)
    && IsCString(e.value)
    && forall i :: 0 <= i < |e.name| ==> e.name[i] != EQUALS
  }

  ghost predicate WellFormed(es: seq<Entry>) {
    && (forall k :: 0 <= k < |es| ==> ValidEntry(es[k]))
    && forall j, k :: 0 <= j < k < |es| ==> es[j].name != es[k].name
  }

  ghost function Lookup(es: seq<Entry>, name: string): Option<string> {
    if es == [] then None
    else if es[0].name == name then Some(es[0].value)
    else Lookup(es[1..], name)
  }

  /** The list without the variable `name`; all others keep their order. */
  ghost function Without(es: seq<Entry>, name: string): (r: seq<Entry>)
    ensures |r| <= |es|
  {
    if es == [] then []
    else if es[0].name == name then Without(es[1..], name)
    else [es[0]] + Without(es[1..], name)
  }

  // ----- the concrete layout -----

  ghost function Text(e: Entry): string {
    e.name + [EQUALS] + e.value
  }

  ghost function Flat(es: seq<Entry>): string {
    if es == [] then [] else Text(es[0]) + [NUL] + Flat(es[1..])
  }

  /** The bytes of a block holding `es`: the strings back to back, then the closing NUL. An empty
      environment is two NULs. */
  ghost function Image(es: seq<Entry>): (r: string)
    ensures |r| >= 2
  {
    if es == [] then [NUL, NUL] else Flat(es) + [NUL]
  }

  ghost predicate Represents(block: string, es: seq<Entry>) {
    && WellFormed(es)
    && |Image(es)| <= |block|
    && block[..|Image(es)|] == Image(es)
  }

  lemma {:induction false} FlatConcat(a: seq<Entry>, b: seq<Entry>)
    ensures Flat(a + b) == Flat(a) + Flat(b)
  {
    hide Text;
    if a == [] {
      assert a + b == b;
    } else {
      FlatConcat(a[1..], b);
      assert (a + b)[1..] == a[1..] + b;
      assert Flat(a + b) == Text(a[0]) + [NUL] + Flat(a[1..] + b);
    }
  }

  /** Where variable `k` lies inside the block. */
  lemma {:induction false} FlatAt(es: seq<Entry>, k: nat)
    requires k < |es|
    ensures Flat(es[..k + 1]) == Flat(es[..k]) + (Text(es[k]) + [NUL])
    ensures Flat(es) == Flat(es[..k + 1]) + Flat(es[k + 1..])
  {
    assert es == es[..k + 1] + es[k + 1..];
    FlatConcat(es[..k + 1], es[k + 1..]);
    assert es[..k + 1] == es[..k] + [es[k]];
    FlatConcat(es[..k], [es[k]]);
    FlatOne(es[k]);
  }

  lemma {:induction false} FlatOne(e: Entry)
    ensures Flat([e]) == Text(e) + [NUL]
  {
    assert [e][1..] == [];
    assert Flat([e][1..]) == [];
  }

  /** Bytes that end with a NUL and hold no earlier pair of NULs. */
  ghost predicate PackedStrings(s: string) {
    && |s| >= 2
    && s[|s| - 1] == NUL
    && forall i :: 0 <= i < |s| - 1 ==> !(s[i] == NUL && s[i + 1] == NUL)
  }

  lemma {:induction false} NoDoubleNul(es: seq<Entry>)
    requires es != []
    requires forall k :: 0 <= k < |es| ==> ValidEntry(es[k])
    ensures PackedStrings(Flat(es)) && Flat(es)[0] != NUL
  {
    var t := Text(es[0]);
    assert ValidEntry(es[0]);
    assert IsCString(t);
    var rest := Flat(es[1..]);
    assert Flat(es) == t + [NUL] + rest;
    if es[1..] != [] {
      NoDoubleNul(es[1..]);
      forall i | 0 <= i < |Flat(es)| - 1
        ensures !(Flat(es)[i] == NUL && Flat(es)[i + 1] == NUL)
      {
        if i > |t| {
          assert Flat(es)[i] == rest[i - |t| - 1];
          assert Flat(es)[i + 1] == rest[i - |t|];
        } else if i == |t| {
          assert Flat(es)[i + 1] == rest[0];
        }
      }
    }
  }

  /** The layout determines the list: a block represents at most one environment. */
  lemma {:induction false} FlatInjective(a: seq<Entry>, b: seq<Entry>, s: string, t: string)
    requires forall k :: 0 <= k < |a| ==> ValidEntry(a[k])
    requires forall k :: 0 <= k < |b| ==> ValidEntry(b[k])
    requires Flat(a) + [NUL] + s == Flat(b) + [NUL] + t
    ensures a == b
    decreases |a|
  {
    var whole := Flat(a) + [NUL] + s;
    if a == [] || b == [] {
      assert whole[0] == NUL;
      if a != [] { NoDoubleNul(a); assert false; }
      if b != [] { NoDoubleNul(b); assert false; }
    } else {
      var ra := Flat(a[1..]) + [NUL] + s;
      var rb := Flat(b[1..]) + [NUL] + t;
      assert whole == Text(a[0]) + [NUL] + ra;
      assert whole == Text(b[0]) + [NUL] + rb;
      TextInjective(a[0], b[0], ra, rb);
      FlatInjective(a[1..], b[1..], s, t);
      assert a == [a[0]] + a[1..] && b == [b[0]] + b[1..];
    }
  }

  lemma TextInjective(a: Entry, b: Entry, s: string, t: string)
    requires ValidEntry(a) && ValidEntry(b)
    requires Text(a) + [NUL] + s == Text(b) + [NUL] + t
    ensures a == b && s == t
  {
    var whole := Text(a) + [NUL] + s;
    var n, m := |a.name|, |b.name|;
    assert whole[n] == EQUALS && whole[m] == EQUALS;
    assert a.name == whole[..n] == b.name;
    var p, q := |Text(a)|, |Text(b)|;
    assert whole[p] == NUL && whole[q] == NUL;
    assert a.value == whole[n + 1..p] == b.value;
    assert s == whole[p + 1..] == t;
  }

  lemma RepresentsUnique(block: string, a: seq<Entry>, b: seq<Entry>)
    requires Represents(block, a) && Represents(block, b)
    ensures a == b
  {
    assert block[0] == Image(a)[0] == Image(b)[0];
    if a == [] {
      if b != [] { NoDoubleNul(b); assert false; }
    } else if b == [] {
      NoDoubleNul(a);
      assert false;
    } else {
      assert block == Image(a) + block[|Image(a)|..] == Image(b) + block[|Image(b)|..];
      FlatInjective(a, b, block[|Image(a)|..], block[|Image(b)|..]);
    }
  }

  /** Where variable `k` lies in a block and what surrounds it. */
  lemma {:induction false} EntryLayout(block: string, es: seq<Entry>, k: nat)
    requires Represents(block, es) && k < |es|
    ensures var o, n := |Flat(es[..k])|, |Text(es[k])|;
      && |Flat(es[..k + 1])| == o + n + 1
      && o + n + 1 + |Flat(es[k + 1..])| == |Flat(es)| < |block|
      && block[o..o + n] == Text(es[k])
      && block[o + n] == NUL
      && block[..o] == Flat(es[..k])
      && block[o + n + 1..|Flat(es)|] == Flat(es[k + 1..])
      && block[|Flat(es)|] == NUL
  {
    var o, n := |Flat(es[..k])|, |Text(es[k])|;
    FlatAt(es, k);
    var f := Flat(es);
    hide Flat, Text, WellFormed;
    assert block[..|f| + 1] == f + [NUL];
    hide Image, Represents;
    assert f == block[..|f| + 1][..|f|] == block[..|f|];
    Pieces(block, Flat(es[..k]), Text(es[k]), Flat(es[k + 1..]));
  }

  lemma Pieces(block: string, a: string, t: string, b: string)
    requires var f := a + (t + [NUL]) + b; |f| <= |block| && block[..|f|] == f
    ensures var o, n := |a|, |t|;
      && block[..o] == a && block[o..o + n] == t && block[o + n] == NUL
      && block[o + n + 1..o + n + 1 + |b|] == b
  {
    var f, o, n := a + (t + [NUL]) + b, |a|, |t|;
    assert f[..o] == a && f[o..o + n] == t && f[o + n] == NUL && f[o + n + 1..] == b;
  }

  ghost predicate NameAt(block: string, o: nat, name: string) {
    && o + |name| + 1 < |block|
    && block[o + |name|] == EQUALS
    && forall j :: 0 <= j < |name| ==> name[j] == block[o + j] && name[j] != EQUALS && name[j] != NUL
  }

  /** The name of variable `k` and its '=', byte by byte. */
  lemma {:induction false} NameLayout(block: string, es: seq<Entry>, k: nat)
    requires Represents(block, es) && k < |es|
    ensures NameAt(block, |Flat(es[..k])|, es[k].name)
  {
    EntryLayout(block, es, k);
    assert ValidEntry(es[k]);
    hide Flat, Represents, WellFormed;
    NameInText(block, |Flat(es[..k])|, es[k]);
  }

  lemma NameInText(block: string, o: nat, e: Entry)
    requires ValidEntry(e)
    requires o + |Text(e)| < |block| && block[o..o + |Text(e)|] == Text(e)
    ensures NameAt(block, o, e.name)
  {
    var t := Text(e);
    assert t[|e.name|] == EQUALS;
    assert forall j :: 0 <= j < |t| ==> t[j] == block[o..o + |t|][j] == block[o + j];
    assert block[o + |e.name|] == t[|e.name|];
    forall j | 0 <= j < |e.name|
      ensures e.name[j] == block[o + j]
    {
      assert e.name[j] == t[j];
    }
  }

  /** The string of variable `k`, byte by byte: no NUL before its end. */
  lemma {:induction false} StringLayout(block: string, es: seq<Entry>, k: nat)
    requires Represents(block, es) && k < |es|
    ensures var o, n := |Flat(es[..k])|, |Text(es[k])|;
      && |Flat(es[..k + 1])| == o + n + 1 < |block|
      && block[o + n] == NUL
      && forall j :: o <= j < o + n ==> block[j] != NUL
  {
    EntryLayout(block, es, k);
    assert ValidEntry(es[k]);
    hide Flat, Represents, WellFormed;
    NoNulInText(block, |Flat(es[..k])|, es[k]);
  }

  lemma NoNulInText(block: string, o: nat, e: Entry)
    requires ValidEntry(e)
    requires o + |Text(e)| < |block| && block[o..o + |Text(e)|] == Text(e)
    ensures forall j :: o <= j < o + |Text(e)| ==> block[j] != NUL
  {
    forall j | o <= j < o + |Text(e)|
      ensures block[j] != NUL
    {
      assert block[j] == block[o..o + |Text(e)|][j - o];
    }
  }

  // ----- what one call does to the list of variables -----

  /** The part of a string before its first '='. */
  ghost function KeyOf(s: string): string {
    if s == [] || s[0] == EQUALS then [] else [s[0]] + KeyOf(s[1..])
  }

  lemma {:induction false} KeyOfAt(s: string, n: nat)
    requires n <= |s|
    requires forall i :: 0 <= i < n ==> s[i] != EQUALS
    requires n == |s| || s[n] == EQUALS
    ensures KeyOf(s) == s[..n]
  {
    if n > 0 {
      KeyOfAt(s[1..], n - 1);
      assert s[..n] == [s[0]] + s[1..][..n - 1];
    }
  }

  /** Strings that agree up to `i`, where a comparison stops, have equal keys only if both end there. */
  lemma {:induction false} KeyCompare(s: string, name: string, i: nat)
    requires forall m :: 0 <= m < |name| ==> name[m] != EQUALS
    requires i <= |s| && i <= |name| && forall m :: 0 <= m < i ==> s[m] == name[m]
    requires i < |s| && i < |name| ==> s[i] != name[i]
    ensures KeyOf(s) == name <==> i == |name| && (i < |s| ==> s[i] == EQUALS)
  {
    if i > 0 {
      assert forall m :: 0 <= m < i - 1 ==> s[1..][m] == s[m + 1] == name[m + 1] == name[1..][m];
      KeyCompare(s[1..], name[1..], i - 1);
      assert name == [name[0]] + name[1..];
    }
  }

  /** The C string stored at index `i`. */
  ghost function StringAt(block: string, i: nat): string
    decreases |block| - i
  {
    if i >= |block| || block[i] == NUL then [] else [block[i]] + StringAt(block, i + 1)
  }

  lemma {:induction false} StringAtIs(block: string, i: nat, s: string)
    requires IsCString(s)
    requires i + |s| < |block| && block[i..i + |s|] == s && block[i + |s|] == NUL
    ensures StringAt(block, i) == s
    decreases |s|
  {
    if s != [] {
      assert block[i] == s[0];
      assert block[i + 1..i + 1 + |s[1..]|] == s[1..];
      StringAtIs(block, i + 1, s[1..]);
    }
  }

  /** A value given as several words is stored with single spaces between them. */
  ghost function Join(words: seq<string>): string
    requires words != []
  {
    if |words| == 1 then words[0] else Join(words[..|words| - 1]) + [SPACE] + words[|words| - 1]
  }

  function WordsLength(words: seq<string>): nat {
    if words == [] then 0 else WordsLength(words[..|words| - 1]) + |words[|words| - 1]| + 1
  }

  lemma {:induction false} JoinLength(words: seq<string>)
    requires words != []
    ensures |Join(words)| + 1 == WordsLength(words)
  {
    if |words| > 1 {
      JoinLength(words[..|words| - 1]);
    } else {
      assert WordsLength(words[..0]) == 0;
    }
  }

  /** One `setenv` command: the name, the words of the value (none deletes the variable), and the
      answers of the console and baud rate code that is not modelled here. */
  datatype Command = Command(name: string, words: seq<string>, consoleAccepts: bool, baudAccepts: bool)

  const STDIN := "stdin"
  const STDOUT := "stdout"
  const STDERR := "stderr"
  const BAUDRATE := "baudrate"

  ghost predicate IsCommand(c: Command) {
    IsCString(c.name) && forall i :: 0 <= i < |c.words| ==> IsCString(c.words[i])
  }

  predicate RefusedByConsole(c: Command) {
    c.name in [STDIN, STDOUT, STDERR] && (c.words == [] || !c.consoleAccepts)
  }

  /** The commands that leave the block alone. */
  ghost predicate Refused(es: seq<Entry>, c: Command) {
    || EQUALS in c.name
    || RefusedByConsole(c)
    || (c.name == BAUDRATE && Lookup(es, c.name).Some? && !c.baudAccepts)
  }

  /** Whether the new definition and the closing NULs fit once the old definition is gone. */
  ghost predicate Fits(es: seq<Entry>, c: Command, size: nat) {
    |Flat(Without(es, c.name))| + |c.name| + 2 + WordsLength(c.words) <= size
  }

  ghost function Apply(es: seq<Entry>, c: Command, size: nat): seq<Entry> {
    if Refused(es, c) then es
    else if c.words == [] || !Fits(es, c, size) then Without(es, c.name)
    else Without(es, c.name) + [Entry(c.name, Join(c.words))]
  }

  ghost predicate Succeeds(es: seq<Entry>, c: Command, size: nat) {
    !Refused(es, c) && (c.words == [] || Fits(es, c, size))
  }

  /** The command was carried out: other variables are untouched; without words its own variable is gone; with
      words it holds them if the block with the new definition and the closing NUL fits, and is gone otherwise. */
  ghost predicate CarriedOut(before: seq<Entry>, after: seq<Entry>, c: Command, size: nat, rc: int) {
    && (forall x: string :: x != c.name ==> Lookup(after, x) == Lookup(before, x))
    && if c.words == [] then rc == 0 && Lookup(after, c.name) == None
       else if |Flat(Without(before, c.name))| + |c.name + "=" + Join(c.words) + "\0" + "\0"| <= size then
         rc == 0 && Lookup(after, c.name) == Some(Join(c.words))
       else rc == 1 && Lookup(after, c.name) == None
  }

  lemma {:induction false} Decided(es: seq<Entry>, c: Command, size: nat)
    ensures Refused(es, c) <==>
              || '=' in c.name
              || (c.name in ["stdin", "stdout", "stderr"] && (c.words == [] || !c.consoleAccepts))
              || (c.name == "baudrate" && Lookup(es, "baudrate") != None && !c.baudAccepts)
    ensures Refused(es, c) ==> Apply(es, c, size) == es && !Succeeds(es, c, size)
    ensures !Refused(es, c) ==> CarriedOut(es, Apply(es, c, size), c, size, if Succeeds(es, c, size) then 0 else 1)
  {
    hide Flat, Without, Join;
    if !Refused(es, c) {
      forall x: string | x != c.name
        ensures Lookup(Apply(es, c, size), x) == Lookup(es, x)
      {
        ApplyLookup(es, c, size, x);
      }
      ApplyLookup(es, c, size, c.name);
      if c.words != [] {
        JoinLength(c.words);
      }
    }
  }

  /** The words of a value, each behind a single space but the first. */
  lemma JoinIs(words: seq<string>, w: string)
    ensures Join([w]) == w
    ensures words != [] ==> Join(words + [w]) == Join(words) + " " + w
  {
    assert words != [] ==> (words + [w])[..|words + [w]| - 1] == words;
  }

  /** What the bytes of a block are: each variable as name, '=', value and NUL, behind all earlier ones, and a NUL
      behind the last one; an empty environment is two NULs. */
  lemma BytesOfBlock(block: string, es: seq<Entry>, k: nat)
    requires Represents(block, es)
    ensures es == [] ==> |block| >= 2 && block[..2] == "\0\0"
    ensures es != [] ==> |Flat(es)| < |block| && block[|Flat(es)|] == '\0'
    ensures k < |es| ==>
              var at, text := |Flat(es[..k])|, es[k].name + "=" + es[k].value + "\0";
              && at + |text| <= |block| && block[at..at + |text|] == text
              && |Flat(es[..k + 1])| == at + |text|
  {
    if k < |es| {
      ImageAt(es, k);
      assert Text(es[k]) + [NUL] == es[k].name + "=" + es[k].value + "\0";
      hide Represents, Text, Flat;
      Infix(block, Flat(es[..k]), Text(es[k]) + [NUL], Flat(es[k + 1..]) + [NUL]);
    }
  }

  lemma ImageAt(es: seq<Entry>, k: nat)
    requires k < |es|
    ensures Image(es) == Flat(es[..k]) + (Text(es[k]) + [NUL]) + (Flat(es[k + 1..]) + [NUL])
    ensures |Flat(es[..k + 1])| == |Flat(es[..k])| + |Text(es[k]) + [NUL]|
  {
    FlatAt(es, k);
    hide Text, Flat;
    Associate(Flat(es[..k]), Text(es[k]) + [NUL], Flat(es[k + 1..]), [NUL]);
  }

  lemma Associate(a: string, b: string, c: string, d: string)
    ensures a + b + c + d == a + b + (c + d)
  {
  }

  lemma Infix(s: string, a: string, b: string, c: string)
    requires |a + b + c| <= |s| && s[..|a + b + c|] == a + b + c
    ensures s[|a|..|a| + |b|] == b
  {
    assert s[..|a + b + c|][|a|..|a| + |b|] == (a + b + c)[|a|..|a| + |b|] == b;
  }

  lemma {:induction false} LookupAt(es: seq<Entry>, name: string, k: nat)
    requires k <= |es|
    requires forall j :: 0 <= j < k ==> es[j].name != name
    requires k < |es| ==> es[k].name == name
    ensures Lookup(es, name) == if k < |es| then Some(es[k].value) else None
  {
    if k > 0 {
      LookupAt(es[1..], name, k - 1);
    }
  }

  lemma DropLater(es: seq<Entry>, k: nat)
    requires 0 < k < |es|
    ensures es[..k] + es[k + 1..] == [es[0]] + (es[1..][..k - 1] + es[1..][k..])
  {
  }

  lemma FirstAndRest(es: seq<Entry>)
    requires WellFormed(es) && es != []
    ensures WellFormed(es[1..]) && forall j :: 0 <= j < |es[1..]| ==> es[1..][j].name != es[0].name
  {
    hide ValidEntry;
  }

  lemma WithoutStep(es: seq<Entry>, name: string)
    requires es != []
    ensures Without(es, name) ==
            if es[0].name == name then Without(es[1..], name) else [es[0]] + Without(es[1..], name)
  {
  }

  lemma WithoutFirst(es: seq<Entry>)
    requires WellFormed(es) && es != []
    ensures Without(es, es[0].name) == es[1..]
  {
    FirstAndRest(es);
    hide WellFormed;
    WithoutAbsent(es[1..], es[0].name);
  }

  lemma {:induction false} WithoutAt(es: seq<Entry>, name: string, k: nat)
    requires WellFormed(es)
    requires k <= |es|
    requires forall j :: 0 <= j < k ==> es[j].name != name
    requires k < |es| ==> es[k].name == name
    ensures Without(es, name) == if k < |es| then es[..k] + es[k + 1..] else es
  {
    if k == |es| {
      WithoutAbsent(es, name);
    } else if k == 0 {
      WithoutFirst(es);
      assert es[..0] + es[1..] == es[1..];
    } else {
      FirstAndRest(es);
      WithoutStep(es, name);
      hide WellFormed, Without;
      WithoutAt(es[1..], name, k - 1);
      DropLater(es, k);
    }
  }

  lemma {:induction false} WithoutAbsent(es: seq<Entry>, name: string)
    requires forall j :: 0 <= j < |es| ==> es[j].name != name
    ensures Without(es, name) == es
  {
    if es != [] {
      WithoutAbsent(es[1..], name);
    }
  }

  // ----- the block itself -----

  class EnvBlock {
    const data: array<char>
    const configEnvSize: nat
    var envId: int
    ghost var entries: seq<Entry>

    ghost predicate Valid()
      reads this, data
    {
      data.Length <= configEnvSize && Represents(data[..], entries)
    }

    constructor (size: nat, headerSize: nat)
      requires size >= 2
      ensures Valid() && entries == [] && fresh(data) && data.Length == size
    {
      data := new char[size](_ => NUL);
      configEnvSize := size + headerSize;
      envId := 1;
      entries := [];
    }

    /** envmatch: compare `s1` with the variable stored at `i2`; the index of its value, or -1. */
    method EnvMatch(s1: string, i2: nat, ghost k: nat) returns (r: int)
      requires Valid() && IsCString(s1)
      requires k < |entries| && i2 == |Flat(entries[..k])|
      ensures r >= 0 <==> KeyOf(s1) == entries[k].name
      ensures r >= 0 ==> r == i2 + |entries[k].name| + 1
    {
      NameLayout(data[..], entries, k);
      hide *;
      r := MatchName(s1, i2, entries[k].name);
    }

    /** The comparison itself, for a `name` and its '=' stored at `i2`. */
    method MatchName(s1: string, i2: nat, ghost name: string) returns (r: int)
      requires IsCString(s1) && NameAt(data[..], i2, name)
      ensures r >= 0 <==> KeyOf(s1) == name
      ensures r >= 0 ==> r == i2 + |name| + 1
    {
      hide KeyOf;
      ghost var n := |name|;
      var i, j := 0, i2;
      var c1 := if 0 < |s1| then s1[0] else NUL;
      var c2 := data[j];
      j := j + 1;
      while c1 == c2
        invariant 0 <= i <= n && i <= |s1| && j == i2 + i + 1
        invariant c1 == (if i < |s1| then s1[i] else NUL)
        invariant c2 == if i < n then name[i] else EQUALS
        invariant forall m :: 0 <= m < i ==> s1[m] == name[m]
        decreases n - i
      {
        if c1 == EQUALS {
          KeyCompare(s1, name, i);
          return j;
        }
        i := i + 1;
        c1 := if i < |s1| then s1[i] else NUL;
        c2 := data[j];
        j := j + 1;
      }
      KeyCompare(s1, name, i);
      if c1 == NUL && c2 == EQUALS {
        return j;
      }
      return -1;
    }

    /** The inner loop of _do_setenv: the NUL that ends the string at `env`. */
    method StringEnd(env: nat, ghost k: nat) returns (nxt: nat)
      requires Valid()
      requires k < |entries| && env == |Flat(entries[..k])|
      ensures nxt == env + |Text(entries[k])| && nxt + 1 == |Flat(entries[..k + 1])|
    {
      StringLayout(data[..], entries, k);
      hide Represents, Flat, Text;
      nxt := env;
      while data[nxt] != NUL
        invariant env <= nxt <= env + |Text(entries[k])|
        decreases data.Length - nxt
      {
        nxt := nxt + 1;
      }
    }

    /** The search loop of _do_setenv: stop at the string whose name is `name`, or at the end. */
    method FindEntry(name: string) returns (env: nat, nxt: nat, oldval: int, ghost k: nat)
      requires Valid() && IsCString(name)
      ensures k <= |entries| && env == |Flat(entries[..k])|
      ensures forall j :: 0 <= j < k ==> entries[j].name != KeyOf(name)
      ensures oldval >= 0 <==> k < |entries|
      ensures oldval >= 0 <==> Lookup(entries, KeyOf(name)).Some?
      ensures k < |entries| ==> entries[k].name == KeyOf(name)
      ensures k < |entries| ==> nxt == env + |Text(entries[k])| && oldval == env + |entries[k].name| + 1
    {
      hide Represents, Flat, KeyOf, Text, Lookup;
      env, nxt, oldval, k := 0, 0, -1, 0;
      FlatNone(entries);
      FirstByte(data[..], entries, k);
      while data[env] != NUL
        invariant k <= |entries| && env == |Flat(entries[..k])| < data.Length
        invariant data[env] == NUL <==> k == |entries|
        invariant forall j :: 0 <= j < k ==> entries[j].name != KeyOf(name)
        invariant oldval < 0
        decreases |entries| - k
      {
        nxt := StringEnd(env, k);
        oldval := EnvMatch(name, env, k);
        if oldval >= 0 {
          LookupAt(entries, KeyOf(name), k);
          return;
        }
        env, k := nxt + 1, k + 1;
        FirstByte(data[..], entries, k);
      }
      LookupAt(entries, KeyOf(name), k);
      assert entries[..k] == entries;
    }

    /** The inner loop of getenv; the bound on the configured size is never reached. */
    method ScanString(i: nat, ghost k: nat) returns (nxt: nat, overrun: bool)
      requires Valid()
      requires k < |entries| && i == |Flat(entries[..k])|
      ensures !overrun && nxt + 1 == |Flat(entries[..k + 1])|
    {
      StringLayout(data[..], entries, k);
      hide Represents, Flat, Text;
      nxt := i;
      while data[nxt] != NUL
        invariant i <= nxt <= i + |Text(entries[k])|
        decreases data.Length - nxt
      {
        if nxt >= configEnvSize {
          return nxt, true;
        }
        nxt := nxt + 1;
      }
      overrun := false;
    }

    /** getenv: the index of the value of `name`, or -1 where the original returns NULL. */
    method GetEnv(name: string) returns (r: int)
      requires Valid() && IsCString(name)
      ensures r < data.Length
      ensures r < 0 <==> Lookup(entries, KeyOf(name)) == None
      ensures r >= 0 ==> Lookup(entries, KeyOf(name)) == Some(StringAt(data[..], r))
      ensures '=' !in name ==> KeyOf(name) == name
    {
      if '=' !in name {
        WholeKey(name);
      }
      hide Represents, Flat, Text, KeyOf, IsCString;
      FlatNone(entries);
      var i := 0;
      ghost var k := 0;
      FirstByte(data[..], entries, k);
      while data[i] != NUL
        invariant k <= |entries| && i == |Flat(entries[..k])| < data.Length
        invariant data[i] == NUL <==> k == |entries|
        invariant forall j :: 0 <= j < k ==> entries[j].name != KeyOf(name)
        decreases |entries| - k
      {
        var nxt, overrun := ScanString(i, k);
        if overrun {
          return -1;
        }
        var val := EnvMatch(name, i, k);
        if val >= 0 {
          ValueAt(data[..], entries, k);
          LookupAt(entries, KeyOf(name), k);
          return val;
        }
        i, k := nxt + 1, k + 1;
        FirstByte(data[..], entries, k);
      }
      LookupAt(entries, KeyOf(name), k);
      return -1;
    }

    /** The in-place deletion of _do_setenv: `env` is the start of string `k` and `nxt` its NUL. */
    method DeleteEntry(env: nat, nxt: nat, ghost k: nat)
      requires Valid()
      requires k < |entries| && env == |Flat(entries[..k])| && nxt == env + |Text(entries[k])|
      modifies data, this`entries
      ensures Valid()
      ensures entries == old(entries)[..k] + old(entries)[k + 1..]
    {
      hide Flat, Text, Represents, WellFormed, PackedStrings, Compacted, Image;
      RestLayout(data[..], entries, k);
      ghost var start, rest := Flat(entries[..k]), Flat(entries[k + 1..]);
      RemoveBytes(env, nxt, start, rest);
      Dropped(data[..], entries, k);
      entries := entries[..k] + entries[k + 1..];
    }

    /** Drop the bytes from `env` to the NUL at `nxt`; `rest` holds the strings that follow. */
    method RemoveBytes(env: nat, nxt: nat, ghost start: string, ghost rest: string)
      requires rest == [] || (PackedStrings(rest) && rest[0] != NUL)
      requires env < nxt && nxt + 1 + |rest| < data.Length
      requires data[..env] == start
      requires data[nxt + 1..nxt + 1 + |rest|] == rest && data[nxt + 1 + |rest|] == NUL
      modifies data
      ensures Compacted(data[..], start, rest)
    {
      assert rest != [] ==> data[nxt + 1..nxt + 1 + |rest|][0] == rest[0];
      if data[nxt + 1] == NUL {
        if env > 0 {
          data[env] := NUL;
        } else {
          data[0], data[1] := NUL, NUL;
        }
      } else {
        ghost var before := data[..];
        assert forall i :: 0 <= i < |rest| ==> rest[i] == before[nxt + 1..nxt + 1 + |rest|][i] == before[nxt + 1 + i];
        assert forall i :: nxt + 1 <= i <= nxt + |rest| ==> before[i] == rest[i - nxt - 1];
        ShiftDown(env, nxt + 1, |rest|);
      }
    }

    /** Copy the `n` bytes of strings from `from` down to `to`, and the NUL that follows them. */
    method ShiftDown(to: nat, from: nat, ghost n: nat)
      requires to < from && 2 <= n && from + n < data.Length
      requires data[from + n - 1] == NUL && data[from + n] == NUL
      requires forall i :: from <= i < from + n - 1 ==> !(data[i] == NUL && data[i + 1] == NUL)
      modifies data
      ensures forall j :: 0 <= j < to ==> data[j] == old(data[j])
      ensures forall j :: to <= j <= to + n ==> data[j] == old(data[j - to + from])
    {
      var env, nxt := to, from;
      data[env] := data[nxt];
      nxt := nxt + 1;
      while !(data[env] == NUL && data[nxt] == NUL)
        invariant to <= env < to + n && nxt == env - to + from + 1
        invariant forall j :: 0 <= j < to ==> data[j] == old(data[j])
        invariant forall j :: nxt <= j < data.Length ==> data[j] == old(data[j])
        invariant forall j :: to <= j <= env ==> data[j] == old(data[j - to + from])
        decreases data.Length - nxt
      {
        env := env + 1;
        data[env] := data[nxt];
        nxt := nxt + 1;
      }
      env := env + 1;
      data[env] := NUL;
    }

    /** Copy a C string and its NUL to index `at`. */
    method CopyString(at: nat, s: string)
      requires at + |s| < data.Length
      modifies data
      ensures data[..at + |s|] == old(data[..at]) + s && data[at + |s|] == NUL
    {
      var i := 0;
      while i < |s|
        invariant 0 <= i <= |s|
        invariant data[..at + i] == old(data[..at]) + s[..i]
      {
        data[at + i] := s[i];
        i := i + 1;
        assert data[..at + i] == data[..at + i - 1] + [s[i - 1]];
      }
      data[at + i] := NUL;
      assert s[..i] == s;
    }

    /** Write a separator and a C string over the NUL at `at`; the index of the new NUL. */
    method WriteWord(at: nat, sep: char, word: string) returns (end: nat)
      requires at + 1 + |word| < data.Length
      modifies data
      ensures end == at + 1 + |word|
      ensures data[..end] == old(data[..at]) + [sep] + word && data[end] == NUL
    {
      data[at] := sep;
      assert data[..at + 1] == old(data[..at]) + [sep];
      CopyString(at + 1, word);
      end := at + 1 + |word|;
    }

    /** The append loops of _do_setenv at index `at`, once the length check has passed. */
    method WriteDefinition(at: nat, name: string, words: seq<string>)
      requires words != []
      requires at + |name| + 2 + WordsLength(words) <= data.Length
      modifies data
      ensures at + |name| + WordsLength(words) == at + |Definition(name, words)| <= data.Length - 2
      ensures data[..at + |Definition(name, words)| + 2] == old(data[..at]) + Definition(name, words) + [NUL, NUL]
    {
      CopyString(at, name);
      var env := at + |name|;
      ghost var start := old(data[..at]);
      for i := 0 to |words|
        invariant env == at + |name| + WordsLength(words[..i]) < data.Length
        invariant data[..env] == start + Definition(name, words[..i])
        invariant data[env] == NUL
      {
        DefinitionStep(name, words, i, start);
        env := WriteWord(env, if i == 0 then EQUALS else SPACE, words[i]);
      }
      assert words[..|words|] == words;
      data[env + 1] := NUL;
      assert data[..env + 2] == data[..env] + [NUL, NUL];
    }

    /** Find where a new definition goes: the index of the closing NUL, or 0 in an empty block. */
    method FindEnd() returns (env: nat)
      requires Valid()
      ensures env == |Flat(entries)| < data.Length
    {
      if entries != [] {
        NoDoubleNul(entries);
      }
      ghost var image := Image(entries);
      assert image == data[..|image|];
      env := 0;
      while data[env] != NUL || data[env + 1] != NUL
        invariant env + 2 <= |image|
        decreases data.Length - env
      {
        env := env + 1;
      }
      assert image[env] == NUL && image[env + 1] == NUL;
      if env > 0 {
        env := env + 1;
      }
    }

    /** The last part of _do_setenv: add a definition at the end if it fits. */
    method Append(name: string, words: seq<string>) returns (rc: int)
      requires Valid() && words != []
      requires ValidEntry(Entry(name, Join(words)))
      requires forall k :: 0 <= k < |entries| ==> entries[k].name != name
      modifies data, this`entries
      ensures Valid()
      ensures rc == 0 <==> |Flat(old(entries))| + |name| + 2 + WordsLength(words) <= data.Length
      ensures rc == 0 || rc == 1
      ensures entries == if rc == 0 then old(entries) + [Entry(name, Join(words))] else old(entries)
    {
      var env := FindEnd();
      var len := |name| + 2 + WordsLength(words);
      if len > data.Length - env {
        return 1;
      }
      ghost var e := Entry(name, Join(words));
      DefinitionIsText(name, words);
      assert data[..env] == Image(entries)[..env] == Flat(entries);
      WriteDefinition(env, name, words);
      Appended(data[..], entries, e);
      entries := entries + [e];
      return 0;
    }

    /** The rest of _do_setenv once nothing refuses the command: drop the old definition, if string `k`
        holds one, and append the new one. */
    method Redefine(c: Command, env: nat, nxt: nat, oldval: int, ghost k: nat) returns (rc: int)
      requires Valid() && IsCommand(c) && EQUALS !in c.name
      requires k <= |entries| && forall j :: 0 <= j < k ==> entries[j].name != c.name
      requires oldval >= 0 <==> k < |entries|
      requires k < |entries| ==>
                 entries[k].name == c.name && env == |Flat(entries[..k])| && nxt == env + |Text(entries[k])|
      modifies data, this`entries
      ensures Valid()
      ensures entries == if c.words == [] || !Fits(old(entries), c, data.Length) then Without(old(entries), c.name)
                         else Without(old(entries), c.name) + [Entry(c.name, Join(c.words))]
      ensures rc == 0 <==> c.words == [] || Fits(old(entries), c, data.Length)
      ensures rc == 0 || rc == 1
    {
      hide Represents, Flat, Text, WellFormed, Join, IsCString, WordsLength, ValidEntry, Without;
      ghost var es := entries;
      ListIsWellFormed(data[..], es);
      WithoutAt(es, c.name, k);
      if oldval >= 0 {
        DeleteEntry(env, nxt, k);
      }
      assert entries == Without(es, c.name);
      if c.words == [] {
        return 0;
      }
      WithoutMember(es, c.name);
      NewEntry(c);
      rc := Append(c.name, c.words);
    }

    /** _do_setenv */
    method DoSetEnv(c: Command) returns (rc: int)
      requires Valid() && IsCommand(c)
      modifies data, this
      ensures Valid()
      ensures entries == Apply(old(entries), c, data.Length)
      ensures rc == if Succeeds(old(entries), c, data.Length) then 0 else 1
      ensures envId == old(envId) + if EQUALS in c.name then 0 else 1
    {
      hide Represents, Flat, Text, Lookup, KeyOf, Fits, Without, Join;
      if EQUALS in c.name {
        return 1;
      }
      WholeKey(c.name);
      envId := envId + 1;
      var env, nxt, oldval, k := FindEntry(c.name);
      if RefusedByConsole(c) {
        return 1;
      }
      if oldval >= 0 && c.name == BAUDRATE && !c.baudAccepts {
        return 1;
      }
      rc := Redefine(c, env, nxt, oldval, k);
    }

    /** do_setenv. A name with '=', the console names without a value or with a device the console does not
        take, and a defined baudrate with an unsupported rate are refused; every other command is carried out. */
    method SetEnv(c: Command) returns (rc: int)
      requires Valid() && IsCommand(c)
      modifies data, this
      ensures Valid()
      ensures entries == Apply(old(entries), c, data.Length)
      ensures rc == 0 <==> Succeeds(old(entries), c, data.Length)
      ensures envId == old(envId) + if EQUALS in c.name then 0 else 1
      ensures '=' in c.name ==> rc == 1 && entries == old(entries)
      ensures c.name in ["stdin", "stdout", "stderr"] && (c.words == [] || !c.consoleAccepts) ==>
                rc == 1 && entries == old(entries)
      ensures c.name == "baudrate" && Lookup(old(entries), "baudrate") != None && !c.baudAccepts ==>
                rc == 1 && entries == old(entries)
      ensures c.name in ["stdin", "stdout", "stderr"] && c.words != [] && c.consoleAccepts ==>
                CarriedOut(old(entries), entries, c, data.Length, rc)
      ensures c.name == "baudrate" && (Lookup(old(entries), "baudrate") == None || c.baudAccepts) ==>
                CarriedOut(old(entries), entries, c, data.Length, rc)
      ensures '=' !in c.name && c.name !in ["stdin", "stdout", "stderr", "baudrate"] ==>
                CarriedOut(old(entries), entries, c, data.Length, rc)
    {
      hide EnvBlock.Valid, Lookup, Apply, CarriedOut;
      Decided(entries, c, data.Length);
      rc := DoSetEnv(c);
    }

    /** Any run of setenv commands. */
    method RunCommands(cmds: seq<Command>)
      requires Valid() && forall i :: 0 <= i < |cmds| ==> IsCommand(cmds[i])
      modifies data, this
      ensures Valid()
      ensures entries == Run(old(entries), cmds, data.Length)
    {
      for i := 0 to |cmds|
        invariant Valid()
        invariant entries == Run(old(entries), cmds[..i], data.Length)
      {
        assert cmds[..i + 1][..i] == cmds[..i];
        var _ := SetEnv(cmds[i]);
      }
      assert cmds[..|cmds|] == cmds;
    }

    /** Set a variable, change others, and read it: the value is the words joined by single spaces. */
    method SetThenGet(c: Command, after: seq<Command>) returns (rc: int, r: int)
      requires Valid() && IsCommand(c) && c.words != [] && EQUALS !in c.name
      requires forall i :: 0 <= i < |after| ==> IsCommand(after[i]) && after[i].name != c.name
      modifies data, this
      ensures Valid()
      ensures rc == 0 ==> 0 <= r < data.Length && StringAt(data[..], r) == Join(c.words)
    {
      ghost var before := entries;
      WholeKey(c.name);
      rc := SetEnv(c);
      RunCommands(after);
      if rc == 0 {
        hide Represents, KeyOf, Lookup, Run, Apply, Succeeds;
        SetThenRun(before, c, after, data.Length);
      }
      r := GetEnv(c.name);
    }

    /** The inner loop of printenv: print the string at `start` in chunks of 16 bytes. */
    method PrintString(start: nat, quiet: bool, ghost s: string) returns (i: nat, out: string)
      requires StringIn(data[..], start, s)
      ensures i == start + |s| + 1
      ensures out == if quiet then [] else s
    {
      ghost var t := s + [NUL];
      assert forall m :: 0 <= m < |t| ==> t[m] == data[start + m] by {
        assert forall m :: 0 <= m < |s| ==> s[m] == data[start..start + |s|][m];
      }
      hide StringIn, StringOf, IsCString;
      var buf := new char[17](_ => NUL);
      var j := 0;
      ghost var from := 0;
      out, i := [], start;
      var more := true;
      assert t[..0] == [];
      while more
        invariant buf.Length == 17 && buf[16] == NUL
        invariant 0 <= j < 16 && 0 <= from && from + j == i - start <= |t|
        invariant more <==> i < start + |t|
        invariant forall m :: 0 <= m < j ==> buf[m] == t[from + m]
        invariant out == if quiet then [] else t[..Printed(|t|, from)]
        decreases start + |t| - i
      {
        var c := data[i];
        assert c == t[from + j];
        buf[j] := c;
        j, i := j + 1, i + 1;
        if j == 16 {
          if !quiet {
            PutsChunk(buf[..], t, from, 16);
            out := out + StringOf(buf[..]);
          }
          j, from := 0, from + 16;
        }
        more := c != NUL;
      }
      if !quiet && j > 0 {
        PutsChunk(buf[..], t, from, j);
        out := out + StringOf(buf[..]);
      }
    }

    /** printenv with state 1: print every variable; the result is the size in use. */
    method PrintAll() returns (r: nat, out: string)
      requires Valid()
      ensures out == Listing(entries) && r == |Flat(entries)|
    {
      hide Represents, Flat, Text, StringIn;
      FlatNone(entries);
      var i := 0;
      out := [];
      ghost var k := 0;
      FirstByte(data[..], entries, k);
      while data[i] != NUL
        invariant k <= |entries| && i == |Flat(entries[..k])| < data.Length
        invariant data[i] == NUL <==> k == |entries|
        invariant out == Listing(entries[..k])
        decreases |entries| - k
      {
        PrintableAt(data[..], entries, k);
        var line;
        i, line := PrintString(i, false, Text(entries[k]));
        out := out + line + [NEWLINE];
        assert entries[..k + 1][..k] == entries[..k];
        k := k + 1;
        FirstByte(data[..], entries, k);
      }
      assert entries[..k] == entries;
      r := i;
    }

    /** printenv with state 2: print the one variable that matches `name`. do_printenv takes a
        result of 0 to mean that the variable was found. */
    method PrintOne(name: string) returns (r: nat, out: string)
      requires Valid() && IsCString(name)
      ensures match Lookup(entries, KeyOf(name))
              case Some(v) => r == 0 && out == Text(Entry(KeyOf(name), v)) + [NEWLINE]
              case None => r == |Flat(entries)| && out == []
      ensures r == 0 <==> Lookup(entries, KeyOf(name)).Some? || entries == []
    {
      if entries != [] {
        NoDoubleNul(entries);
      }
      hide Represents, Flat, Text, StringIn, IsCString, PackedStrings, KeyOf, Lookup;
      FlatNone(entries);
      var i, state := 0, 2;
      out := [];
      ghost var k, v := 0, [];
      FirstByte(data[..], entries, k);
      while state != 0 && data[i] != NUL
        invariant k <= |entries| && i == |Flat(entries[..k])| < data.Length
        invariant data[i] == NUL <==> k == |entries|
        invariant state == 2 || state == 0
        invariant state == 2 ==> out == [] && forall j :: 0 <= j < k ==> entries[j].name != KeyOf(name)
        invariant state == 0 ==> Lookup(entries, KeyOf(name)) == Some(v)
        invariant state == 0 ==> out == Text(Entry(KeyOf(name), v)) + [NEWLINE]
        decreases |entries| - k
      {
        PrintableAt(data[..], entries, k);
        var val := EnvMatch(name, i, k);
        if val >= 0 {
          state, v := 0, entries[k].value;
          LookupAt(entries, KeyOf(name), k);
        }
        var line;
        i, line := PrintString(i, state == 2, Text(entries[k]));
        if state != 2 {
          out := out + line + [NEWLINE];
        }
        k := k + 1;
        FirstByte(data[..], entries, k);
      }
      if state == 0 {
        return 0, out;
      }
      LookupAt(entries, KeyOf(name), k);
      assert entries[..k] == entries;
      r := i;
    }
  }

  const NEWLINE := '\n'

  ghost function Listing(es: seq<Entry>): string {
    if es == [] then [] else Listing(es[..|es| - 1]) + Text(es[|es| - 1]) + [NEWLINE]
  }

  /** A listing line by line. */
  lemma ListingIs(es: seq<Entry>, e: Entry)
    ensures Listing([]) == ""
    ensures Listing(es + [e]) == Listing(es) + e.name + "=" + e.value + "\n"
  {
    assert (es + [e])[..|es|] == es;
  }

  lemma {:induction false} PrintableAt(block: string, es: seq<Entry>, k: nat)
    requires Represents(block, es) && k < |es|
    ensures |Flat(es[..k + 1])| == |Flat(es[..k])| + |Text(es[k])| + 1
    ensures StringIn(block, |Flat(es[..k])|, Text(es[k]))
  {
    EntryLayout(block, es, k);
    assert ValidEntry(es[k]);
    assert IsCString(Text(es[k]));
  }

  /** The C string `t` and its NUL lie at index `o`. */
  ghost predicate StringIn(block: string, o: nat, t: string) {
    && o + |t| < |block|
    && block[o..o + |t|] == t
    && block[o + |t|] == NUL
    && IsCString(t)
  }

  /** How much of a string of `n` bytes is printed once `done` bytes are flushed: not the NUL. */
  ghost function Printed(n: nat, done: nat): nat {
    if done < n then done else if n > 0 then n - 1 else 0
  }

  /** What `puts` prints: the bytes before the first NUL. */
  function StringOf(s: string): string {
    if s == [] || s[0] == NUL then [] else [s[0]] + StringOf(s[1..])
  }

  lemma {:induction false} StringOfIs(s: string, n: nat)
    requires n < |s| && s[n] == NUL && IsCString(s[..n])
    ensures StringOf(s) == s[..n]
  {
    if n > 0 {
      assert s[0] == s[..n][0];
      assert s[1..][..n - 1] == s[..n][1..];
      StringOfIs(s[1..], n - 1);
    }
  }

  /** A full buffer, or one that ends with the string's own NUL, prints the next piece of the string. */
  lemma PutsChunk(buf: string, t: string, from: nat, j: nat)
    requires |buf| == 17 && buf[16] == NUL && |t| > 0 && t[|t| - 1] == NUL && IsCString(t[..|t| - 1])
    requires 0 < j <= 16 && from + j <= |t| && (j == 16 || from + j == |t|)
    requires forall m :: 0 <= m < j ==> buf[m] == t[from + m]
    ensures t[..Printed(|t|, from)] + StringOf(buf) == t[..Printed(|t|, from + j)]
  {
    var end := Printed(|t|, from + j);
    var n := end - from;
    assert forall m :: 0 <= m < n ==> buf[m] == t[from + m] == t[..|t| - 1][from + m];
    assert buf[..n] == t[from..end];
    StringOfIs(buf, n);
  }

  // ----- whole runs -----

  ghost function Run(es: seq<Entry>, cmds: seq<Command>, size: nat): seq<Entry> {
    if cmds == [] then es
    else Apply(Run(es, cmds[..|cmds| - 1], size), cmds[|cmds| - 1], size)
  }

  /** A run keeps every name unique and every string well formed, and the block never overflows. */
  lemma {:induction false} RunRepresents(es: seq<Entry>, cmds: seq<Command>, size: nat)
    requires WellFormed(es) && |Image(es)| <= size
    requires forall i :: 0 <= i < |cmds| ==> IsCommand(cmds[i])
    ensures WellFormed(Run(es, cmds, size)) && |Image(Run(es, cmds, size))| <= size
  {
    if cmds != [] {
      RunRepresents(es, cmds[..|cmds| - 1], size);
      ApplyRepresents(Run(es, cmds[..|cmds| - 1], size), cmds[|cmds| - 1], size);
    }
  }

  lemma {:induction false} ApplyRepresents(es: seq<Entry>, c: Command, size: nat)
    requires WellFormed(es) && |Image(es)| <= size && IsCommand(c)
    ensures WellFormed(Apply(es, c, size)) && |Image(Apply(es, c, size))| <= size
  {
    if !Refused(es, c) {
      var w := Without(es, c.name);
      WithoutWellFormed(es, c.name);
      WithoutMember(es, c.name);
      if c.words != [] && Fits(es, c, size) {
        JoinIsCString(c.words);
        FlatConcat(w, [Entry(c.name, Join(c.words))]);
        FlatOne(Entry(c.name, Join(c.words)));
        JoinLength(c.words);
      }
    }
  }

  lemma {:induction false} WithoutWellFormed(es: seq<Entry>, name: string)
    requires WellFormed(es)
    ensures WellFormed(Without(es, name))
  {
    hide ValidEntry;
    if es != [] {
      WithoutWellFormed(es[1..], name);
      WithoutMember(es[1..], name);
      var w := Without(es[1..], name);
      if es[0].name == name {
        assert Without(es, name) == w;
      } else {
        assert forall k :: 0 <= k < |w| ==> w[k] in es[1..];
        ConsWellFormed(es[0], w);
        assert Without(es, name) == [es[0]] + w;
      }
    }
  }

  lemma ConsWellFormed(e: Entry, es: seq<Entry>)
    requires ValidEntry(e) && WellFormed(es)
    requires forall k :: 0 <= k < |es| ==> es[k].name != e.name
    ensures WellFormed([e] + es)
  {
  }

  lemma {:induction false} WithoutMember(es: seq<Entry>, name: string)
    ensures forall e :: e in Without(es, name) ==> e in es && e.name != name
    ensures |Flat(Without(es, name))| <= |Flat(es)|
  {
    hide Text;
    if es != [] {
      WithoutMember(es[1..], name);
    }
  }

  // A run refines a map from names to values.

  datatype Outcome = Untouched | Stored | Removed

  ghost function OutcomeOf(es: seq<Entry>, c: Command, size: nat): Outcome {
    if Refused(es, c) then Untouched else if c.words != [] && Succeeds(es, c, size) then Stored else Removed
  }

  ghost function Outcomes(es: seq<Entry>, cmds: seq<Command>, size: nat): (r: seq<Outcome>)
    ensures |r| == |cmds|
  {
    if cmds == [] then []
    else
      var n := |cmds| - 1;
      Outcomes(es, cmds[..n], size) + [OutcomeOf(Run(es, cmds[..n], size), cmds[n], size)]
  }

  ghost function ToMap(es: seq<Entry>): map<string, string> {
    if es == [] then map[] else ToMap(es[1..])[es[0].name := es[0].value]
  }

  ghost function MapRun(m: map<string, string>, cmds: seq<Command>, outcomes: seq<Outcome>): map<string, string>
    requires |cmds| == |outcomes|
  {
    if cmds == [] then m
    else
      var n := |cmds| - 1;
      var prev := MapRun(m, cmds[..n], outcomes[..n]);
      match outcomes[n]
      case Untouched => prev
      case Stored => if cmds[n].words == [] then prev else prev[cmds[n].name := Join(cmds[n].words)]
      case Removed => prev - {cmds[n].name}
  }

  ghost function MapGet(m: map<string, string>, x: string): Option<string> {
    if x in m then Some(m[x]) else None
  }

  lemma {:induction false} RunRefinesMap(es: seq<Entry>, cmds: seq<Command>, size: nat, x: string)
    ensures Lookup(Run(es, cmds, size), x) == MapGet(MapRun(ToMap(es), cmds, Outcomes(es, cmds, size)), x)
  {
    if cmds == [] {
      LookupIsMapGet(es, x);
    } else {
      var n := |cmds| - 1;
      RunRefinesMap(es, cmds[..n], size, x);
      assert Outcomes(es, cmds, size)[..n] == Outcomes(es, cmds[..n], size);
      ApplyLookup(Run(es, cmds[..n], size), cmds[n], size, x);
    }
  }

  lemma {:induction false} LookupIsMapGet(es: seq<Entry>, x: string)
    ensures Lookup(es, x) == MapGet(ToMap(es), x)
  {
    if es != [] {
      LookupIsMapGet(es[1..], x);
    }
  }

  /** One command changes the value of its own name only; an overflowing one removes it. */
  lemma {:induction false} ApplyLookup(es: seq<Entry>, c: Command, size: nat, x: string)
    ensures Lookup(Apply(es, c, size), x) ==
              if x != c.name || Refused(es, c) then Lookup(es, x)
              else if c.words != [] && Fits(es, c, size) then Some(Join(c.words))
              else None
  {
    LookupWithout(es, c.name, x);
    if c.words != [] {
      LookupSnoc(Without(es, c.name), Entry(c.name, Join(c.words)), x);
    }
  }

  lemma {:induction false} LookupWithout(es: seq<Entry>, name: string, x: string)
    ensures Lookup(Without(es, name), x) == if x == name then None else Lookup(es, x)
  {
    if es != [] {
      LookupWithout(es[1..], name, x);
    }
  }

  lemma {:induction false} LookupSnoc(es: seq<Entry>, e: Entry, x: string)
    ensures Lookup(es + [e], x) ==
              if Lookup(es, x).Some? then Lookup(es, x) else if x == e.name then Some(e.value) else None
  {
    if es != [] {
      LookupSnoc(es[1..], e, x);
      assert (es + [e])[1..] == es[1..] + [e];
    } else {
      assert ([] + [e]) == [e];
    }
  }

  /** The value of a variable is the last one stored, whatever the later commands on other names do. */
  lemma {:induction false} LastValueWins(es: seq<Entry>, before: seq<Command>, c: Command, after: seq<Command>,
                                         size: nat)
    requires c.words != [] && Succeeds(Run(es, before, size), c, size)
    requires forall i :: 0 <= i < |after| ==> after[i].name != c.name
    ensures Lookup(Run(es, before + [c] + after, size), c.name) == Some(Join(c.words))
  {
    hide Apply, Join, Lookup, Flat;
    if after == [] {
      var all := before + [c] + after;
      assert all[..|all| - 1] == before;
      ApplyLookup(Run(es, before, size), c, size, c.name);
    } else {
      var n := |after| - 1;
      LastValueWins(es, before, c, after[..n], size);
      var all := before + [c] + after;
      assert all[..|all| - 1] == before + [c] + after[..n];
      ApplyLookup(Run(es, before + [c] + after[..n], size), after[n], size, c.name);
    }
  }

  lemma SetThenRun(es: seq<Entry>, c: Command, after: seq<Command>, size: nat)
    requires c.words != [] && Succeeds(es, c, size)
    requires forall i :: 0 <= i < |after| ==> after[i].name != c.name
    ensures Lookup(Run(Apply(es, c, size), after, size), c.name) == Some(Join(c.words))
  {
    assert Run(es, [], size) == es;
    LastValueWins(es, [], c, after, size);
    assert [] + [c] + after == [c] + after;
    RunSplit(es, [c], after, size);
    assert [c][..0] == [];
    assert Run(es, [c], size) == Apply(es, c, size);
  }

  lemma {:induction false} RunSplit(es: seq<Entry>, a: seq<Command>, b: seq<Command>, size: nat)
    ensures Run(es, a + b, size) == Run(Run(es, a, size), b, size)
  {
    if b == [] {
      assert a + b == a;
    } else {
      var n := |b| - 1;
      assert (a + b)[..|a + b| - 1] == a + b[..n];
      RunSplit(es, a, b[..n], size);
    }
  }

  /** The variables a run does not name keep their values and their order. */
  ghost function Keep(es: seq<Entry>, names: set<string>): seq<Entry> {
    if es == [] then []
    else if es[0].name in names then Keep(es[1..], names)
    else [es[0]] + Keep(es[1..], names)
  }

  lemma {:induction false} RunKeepsOrder(es: seq<Entry>, cmds: seq<Command>, size: nat, names: set<string>)
    requires forall i :: 0 <= i < |cmds| ==> cmds[i].name in names
    ensures Keep(Run(es, cmds, size), names) == Keep(es, names)
  {
    if cmds != [] {
      var n := |cmds| - 1;
      RunKeepsOrder(es, cmds[..n], size, names);
      var prev := Run(es, cmds[..n], size);
      KeepWithout(prev, cmds[n].name, names);
      if cmds[n].words != [] {
        KeepSnoc(Without(prev, cmds[n].name), Entry(cmds[n].name, Join(cmds[n].words)), names);
      }
    }
  }

  lemma {:induction false} KeepWithout(es: seq<Entry>, name: string, names: set<string>)
    requires name in names
    ensures Keep(Without(es, name), names) == Keep(es, names)
  {
    if es != [] {
      KeepWithout(es[1..], name, names);
    }
  }

  lemma {:induction false} KeepSnoc(es: seq<Entry>, e: Entry, names: set<string>)
    requires e.name in names
    ensures Keep(es + [e], names) == Keep(es, names)
  {
    if es != [] {
      KeepSnoc(es[1..], e, names);
      assert (es + [e])[1..] == es[1..] + [e];
    } else {
      assert es + [e] == [e];
    }
  }

  lemma ListIsWellFormed(block: string, es: seq<Entry>)
    requires Represents(block, es)
    ensures WellFormed(es)
  {
  }

  lemma WholeKey(name: string)
    requires EQUALS !in name
    ensures KeyOf(name) == name
  {
    KeyOfAt(name, |name|);
    assert name[..|name|] == name;
  }

  lemma NewEntry(c: Command)
    requires IsCommand(c) && c.words != [] && EQUALS !in c.name
    ensures ValidEntry(Entry(c.name, Join(c.words)))
  {
    JoinIsCString(c.words);
  }

  lemma {:induction false} JoinIsCString(words: seq<string>)
    requires words != [] && forall i :: 0 <= i < |words| ==> IsCString(words[i])
    ensures IsCString(Join(words))
  {
    if |words| > 1 {
      JoinIsCString(words[..|words| - 1]);
    }
  }

  lemma {:induction false} Appended(block: string, es: seq<Entry>, e: Entry)
    requires WellFormed(es) && ValidEntry(e)
    requires forall k :: 0 <= k < |es| ==> es[k].name != e.name
    requires |Flat(es)| + |Text(e)| + 2 <= |block|
    requires block[..|Flat(es)| + |Text(e)| + 2] == Flat(es) + Text(e) + [NUL, NUL]
    ensures Represents(block, es + [e])
  {
    FlatConcat(es, [e]);
    FlatOne(e);
    hide Text, ValidEntry, Flat;
    assert Flat(es) + (Text(e) + [NUL]) + [NUL] == Flat(es) + Text(e) + [NUL, NUL];
    assert Image(es + [e]) == Flat(es) + Text(e) + [NUL, NUL];
  }

  /** "name=word word ..." */
  ghost function Definition(name: string, words: seq<string>): string {
    if words == [] then name
    else
      var n := |words| - 1;
      Definition(name, words[..n]) + [if n == 0 then EQUALS else SPACE] + words[n]
  }

  lemma {:induction false} DefinitionStep(name: string, words: seq<string>, i: nat, start: string)
    requires i < |words|
    ensures WordsLength(words[..i + 1]) == WordsLength(words[..i]) + |words[i]| + 1 <= WordsLength(words)
    ensures start + Definition(name, words[..i + 1])
         == start + Definition(name, words[..i]) + [if i == 0 then EQUALS else SPACE] + words[i]
  {
    assert words[..i + 1][..i] == words[..i];
    WordsLengthGrows(words, i + 1);
  }

  lemma {:induction false} DefinitionIsText(name: string, words: seq<string>)
    requires words != []
    ensures Definition(name, words) == Text(Entry(name, Join(words)))
    ensures |Definition(name, words)| == |name| + WordsLength(words)
  {
    var n := |words| - 1;
    if n == 0 {
      assert Definition(name, words[..0]) == name;
      assert WordsLength(words[..0]) == 0;
    } else {
      DefinitionIsText(name, words[..n]);
      assert Text(Entry(name, Join(words))) == name + [EQUALS] + (Join(words[..n]) + [SPACE] + words[n]);
    }
  }

  lemma {:induction false} WordsLengthGrows(words: seq<string>, i: nat)
    requires i <= |words|
    ensures WordsLength(words[..i]) <= WordsLength(words)
    decreases |words|
  {
    if i < |words| {
      WordsLengthGrows(words[..|words| - 1], i);
      assert words[..|words| - 1][..i] == words[..i];
    } else {
      assert words[..i] == words;
    }
  }

  /** The strings `start` and `rest` back to back and a closing NUL; two NULs when there are none. */
  ghost predicate Compacted(block: string, start: string, rest: string) {
    && |start| + |rest| + 1 < |block|
    && block[..|start|] == start
    && block[|start|..|start| + |rest|] == rest
    && block[|start| + |rest|] == NUL
    && (start == [] && rest == [] ==> block[1] == NUL)
  }

  /** What follows variable `k`: the other variables and the closing NUL. */
  lemma {:induction false} RestLayout(block: string, es: seq<Entry>, k: nat)
    requires Represents(block, es) && k < |es|
    ensures var rest, nxt := Flat(es[k + 1..]), |Flat(es[..k])| + |Text(es[k])|;
      && WellFormed(es) && 0 < |Text(es[k])|
      && nxt + 1 + |rest| < |block|
      && block[nxt + 1..nxt + 1 + |rest|] == rest && block[nxt + 1 + |rest|] == NUL
      && block[..|Flat(es[..k])|] == Flat(es[..k])
      && (rest == [] <==> k + 1 == |es|)
      && (rest == [] || (PackedStrings(rest) && rest[0] != NUL))
  {
    EntryLayout(block, es, k);
    assert WellFormed(es);
    hide Represents;
    if k + 1 < |es| {
      NoDoubleNul(es[k + 1..]);
    }
  }

  lemma {:induction false} DroppedWellFormed(es: seq<Entry>, k: nat)
    requires WellFormed(es) && k < |es|
    ensures WellFormed(es[..k] + es[k + 1..])
    ensures Flat(es[..k] + es[k + 1..]) == Flat(es[..k]) + Flat(es[k + 1..])
  {
    FlatConcat(es[..k], es[k + 1..]);
  }

  lemma {:induction false} Dropped(block: string, es: seq<Entry>, k: nat)
    requires WellFormed(es) && k < |es|
    requires Compacted(block, Flat(es[..k]), Flat(es[k + 1..]))
    ensures Represents(block, es[..k] + es[k + 1..])
  {
    hide WellFormed, Text, Flat;
    DroppedWellFormed(es, k);
    var a, b := Flat(es[..k]), Flat(es[k + 1..]);
    assert block[..|a| + |b| + 1] == a + b + [NUL];
    if es[..k] + es[k + 1..] == [] {
      FlatNone([]);
      assert es[..k] == [] && es[k + 1..] == [];
      assert block[..2] == [NUL, NUL];
    }
  }

  lemma {:induction false} ValueAt(block: string, es: seq<Entry>, k: nat)
    requires Represents(block, es) && k < |es|
    ensures var v := |Flat(es[..k])| + |es[k].name| + 1;
      v < |block| && StringAt(block, v) == es[k].value
  {
    EntryLayout(block, es, k);
    TextValue(block, |Flat(es[..k])|, es[k]);
  }

  lemma {:induction false} TextValue(block: string, o: nat, e: Entry)
    requires ValidEntry(e)
    requires o + |Text(e)| < |block|
    requires block[o..o + |Text(e)|] == Text(e) && block[o + |Text(e)|] == NUL
    ensures StringAt(block, o + |e.name| + 1) == e.value
  {
    var v := o + |e.name| + 1;
    assert block[v..v + |e.value|] == block[o..o + |Text(e)|][|e.name| + 1..];
    assert Text(e)[|e.name| + 1..] == e.value;
    StringAtIs(block, v, e.value);
  }

  lemma FlatNone(es: seq<Entry>)
    ensures Flat(es[..0]) == []
  {
  }

  lemma {:induction false} FirstByte(block: string, es: seq<Entry>, k: nat)
    requires Represents(block, es) && k <= |es|
    ensures |Flat(es[..k])| < |block|
    ensures block[|Flat(es[..k])|] == NUL <==> k == |es|
  {
    if k < |es| {
      EntryLayout(block, es, k);
      assert ValidEntry(es[k]);
      assert block[|Flat(es[..k])|] == Text(es[k])[0];
    } else {
      assert es[..k] == es;
      assert block[|Flat(es)|] == Image(es)[|Flat(es)|];
    }
  }
}
