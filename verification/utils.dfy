/**
 The string and record helpers of lib/utils.ts: `capitalize`, `camelize`,
 `capitalizeVar`, `arr2str`, `isEmptyObj` and `isValidStr`, each written as
 the JavaScript expression it is, over the built-ins of module JsString.
 */
module Utils {
  import opened JsString

  // ---------------------------------------------------------------------------
  // capitalize, capitalizeVar
  // ---------------------------------------------------------------------------

  /**
   `capitalize`: the first character upper-cased and every later one
   lower-cased. On "" both `charAt(0)` and `slice(1)` are "", so the result
   is "".
   */
  function Capitalize(s: string): (r: string)
    ensures |r| == |s|
    ensures |s| > 0 ==> r[0] == Upper(s[0])
    ensures forall i :: 1 <= i < |s| ==> r[i] == Lower(s[i])
  {
    SliceFromOne(s);
    UpperStr(CharAt(s, 0)) + LowerStr(Slice(s, 1, |s|))
  }

  /** `capitalizeVar`: the first character upper-cased, the rest untouched. */
  function CapitalizeVar(s: string): (r: string)
    ensures |r| == |s|
    ensures |s| > 0 ==> r[0] == Upper(s[0])
    ensures forall i :: 1 <= i < |s| ==> r[i] == s[i]
  {
    SliceFromOne(s);
    UpperStr(CharAt(s, 0)) + Slice(s, 1, |s|)
  }

  /** Capitalizing twice is capitalizing once. */
  lemma CapitalizeIdempotent(s: string)
    ensures Capitalize(Capitalize(s)) == Capitalize(s)
  {
    var c := Capitalize(s);
    forall i | 0 <= i < |s| ensures Capitalize(c)[i] == c[i] {
      CaseAbsorbs(s[i]);
    }
  }

  /** Applying `capitalizeVar` twice is applying it once. */
  lemma CapitalizeVarIdempotent(s: string)
    ensures CapitalizeVar(CapitalizeVar(s)) == CapitalizeVar(s)
  {
    if s != [] {
      CaseAbsorbs(s[0]);
    }
  }

  /** `capitalize` is `capitalizeVar` of the lower-cased string. */
  lemma CapitalizeIsCapitalizeVarOfLower(s: string)
    ensures Capitalize(s) == CapitalizeVar(LowerStr(s))
  {
    if s != [] {
      CaseAbsorbs(s[0]);
    }
  }

  /** Capitalizing a one-character head and a tail: the head goes up, the tail down. */
  lemma CapitalizeCons(c: char, w: string)
    ensures Capitalize([c] + w) == [Upper(c)] + LowerStr(w)
  {
  }

  /** `capitalize("hello")` is "Hello"; "" is left as "" rather than rejected. */
  lemma CapitalizeExamples()
    ensures Capitalize("hello") == "Hello"
    ensures Capitalize("hELLO wORLD") == "Hello world"
    ensures Capitalize("") == ""
  {
  }

  // ---------------------------------------------------------------------------
  // camelize
  // ---------------------------------------------------------------------------

  /**
   `camelize`: split on single spaces, capitalize each piece, join with
   spaces. The result is the character-by-character `WordCase` reading.
   */
  function Camelize(s: string): (r: string)
    ensures r == WordCase(s, true)
  {
    var p := Split(s, ' ');
    CamelizeIsWordCaseGen(s, true);
    assert MapSeq(Capitalize, p) == [HeadCase(true, p[0])] + MapSeq(Capitalize, p[1..]);
    Join(MapSeq(Capitalize, p), " ")
  }

  /** Whether position `i` of `s` starts a word: the first position, or one after a space. */
  predicate StartsWord(s: string, i: nat)
    requires i < |s|
  {
    i == 0 || s[i - 1] == ' '
  }

  /**
   A character-by-character reading of `camelize`: a space stays a space, a
   character at the start of a word (`atStart` for the first one) is
   upper-cased and every other character lower-cased.
   */
  function WordCase(s: string, atStart: bool): (r: string)
    ensures |r| == |s|
  {
    if s == [] then []
    else if s[0] == ' ' then [' '] + WordCase(s[1..], true)
    else [if atStart then Upper(s[0]) else Lower(s[0])] + WordCase(s[1..], false)
  }

  /** What `WordCase` does at each position. */
  lemma {:induction false} WordCaseAt(s: string, atStart: bool, i: nat)
    requires i < |s|
    ensures WordCase(s, atStart)[i] ==
      if s[i] == ' ' then ' '
      else if (if i == 0 then atStart else s[i - 1] == ' ') then Upper(s[i])
      else Lower(s[i])
  {
    if i > 0 {
      WordCaseAt(s[1..], s[0] == ' ', i - 1);
    }
  }

  /** The case a word's first piece gets: capitalized at a word start, lower-cased inside a word. */
  function HeadCase(atStart: bool, w: string): string
  {
    if atStart then Capitalize(w) else LowerStr(w)
  }

  /** A space piece: the joined pieces start with the space, and the next piece starts a word. */
  lemma SpaceStep(rest: seq<string>, atStart: bool)
    requires |rest| >= 1
    ensures Join([HeadCase(atStart, [])] + MapSeq(Capitalize, rest), " ")
         == " " + Join([HeadCase(true, rest[0])] + MapSeq(Capitalize, rest[1..]), " ")
  {
    var m := MapSeq(Capitalize, rest);
    assert HeadCase(atStart, []) == [];
    JoinEmptyHead(m, " ");
    assert m == [HeadCase(true, rest[0])] + MapSeq(Capitalize, rest[1..]);
  }

  /** A non-space character heads the first piece; the rest of that piece is inside a word. */
  lemma LetterStep(c: char, w: string, tail: seq<string>, atStart: bool)
    ensures Join([HeadCase(atStart, [c] + w)] + tail, " ")
         == [if atStart then Upper(c) else Lower(c)] + Join([HeadCase(false, w)] + tail, " ")
  {
    var d := if atStart then Upper(c) else Lower(c);
    if atStart {
      CapitalizeCons(c, w);
    } else {
      assert LowerStr([c] + w) == [Lower(c)] + LowerStr(w);
    }
    JoinConsHead([d], HeadCase(false, w), tail, " ");
  }

  /**
   The joined, capitalized pieces of `s` agree with `WordCase`, for either
   case of the first piece.
   */
  lemma {:induction false} CamelizeIsWordCaseGen(s: string, atStart: bool)
    ensures
      var p := Split(s, ' ');
      Join([HeadCase(atStart, p[0])] + MapSeq(Capitalize, p[1..]), " ") == WordCase(s, atStart)
  {
    if s != [] {
      var rest := Split(s[1..], ' ');
      var p := Split(s, ' ');
      if s[0] == ' ' {
        CamelizeIsWordCaseGen(s[1..], true);
        assert p == [[]] + rest;
        assert p[1..] == rest;
        SpaceStep(rest, atStart);
      } else {
        CamelizeIsWordCaseGen(s[1..], false);
        assert p == [[s[0]] + rest[0]] + rest[1..];
        assert p[1..] == rest[1..];
        LetterStep(s[0], rest[0], MapSeq(Capitalize, rest[1..]), atStart);
      }
    }
  }

  /**
   `camelize` keeps the length and every space, upper-cases the character at
   each word start and lower-cases the others.
   */
  lemma CamelizeAt(s: string)
    ensures |Camelize(s)| == |s|
    ensures forall i :: 0 <= i < |s| ==>
      Camelize(s)[i] == (if s[i] == ' ' then ' ' else if StartsWord(s, i) then Upper(s[i]) else Lower(s[i]))
  {
    forall i | 0 <= i < |s|
      ensures Camelize(s)[i] ==
        if s[i] == ' ' then ' ' else if StartsWord(s, i) then Upper(s[i]) else Lower(s[i])
    {
      WordCaseAt(s, true, i);
    }
  }

  /** A space is in the output of `camelize` exactly where it is in the input. */
  lemma CamelizeKeepsSpaces(s: string)
    ensures |Camelize(s)| == |s|
    ensures forall i :: 0 <= i < |s| ==> (Camelize(s)[i] == ' ' <==> s[i] == ' ')
  {
    CamelizeAt(s);
    forall i | 0 <= i < |s| ensures Camelize(s)[i] == ' ' <==> s[i] == ' ' {
      CaseAbsorbs(s[i]);
    }
  }

  /** Camelizing twice is camelizing once. */
  lemma CamelizeIdempotent(s: string)
    ensures Camelize(Camelize(s)) == Camelize(s)
  {
    var t := Camelize(s);
    CamelizeAt(s);
    CamelizeKeepsSpaces(s);
    CamelizeAt(t);
    forall i | 0 <= i < |t| ensures Camelize(t)[i] == t[i] {
      CaseAbsorbs(s[i]);
      assert StartsWord(t, i) == StartsWord(s, i);
    }
  }

  /**
   The space-separated pieces of `camelize(s)` are the capitalized pieces of
   `s`, one for one, empty pieces included.
   */
  lemma CamelizeSegments(s: string)
    ensures Split(Camelize(s), ' ') == MapSeq(Capitalize, Split(s, ' '))
  {
    var p := MapSeq(Capitalize, Split(s, ' '));
    forall i | 0 <= i < |p| ensures ' ' !in p[i] {
      var w := Split(s, ' ')[i];
      forall k | 0 <= k < |w| ensures p[i][k] != ' ' {
        CaseAbsorbs(w[k]);
      }
    }
    JoinSplit(p, ' ');
  }

  // ---------------------------------------------------------------------------
  // arr2str
  // ---------------------------------------------------------------------------

  datatype Option<T> = None | Some(value: T)

  /**
   The argument record of `arr2str`; a missing (undefined) `joiner` or
   `endJoiner` is `None` and takes its default.
   */
  datatype Arr2StrProps = Arr2StrProps(arr: seq<string>, joiner: Option<string>, endJoiner: Option<string>)

  const DefaultJoiner: string := ", "
  const DefaultEndJoiner: string := " and "

  function JoinerOf(props: Arr2StrProps): string
  {
    if props.joiner.Some? then props.joiner.value else DefaultJoiner
  }

  function EndJoinerOf(props: Arr2StrProps): string
  {
    if props.endJoiner.Some? then props.endJoiner.value else DefaultEndJoiner
  }

  /**
   `arr2str`: all items but the last joined by the joiner, then the end
   joiner, then the last item. The array must not be empty: the code reads
   `arr[arr.length - 1]` unguarded. A one-item array gives the end joiner
   followed by the item, because `slice(0, -1)` is then empty.
   */
  function Arr2Str(props: Arr2StrProps): (r: string)
    requires |props.arr| >= 1
    ensures var n := |props.arr|;
      n == 1 ==> r == EndJoinerOf(props) + props.arr[0]
    ensures var n := |props.arr|;
      n >= 2 ==> r == Join(props.arr[..n - 1], JoinerOf(props)) + EndJoinerOf(props) + props.arr[n - 1]
  {
    var arr := props.arr;
    SliceDropLast(arr);
    Join(Slice(arr, 0, -1), JoinerOf(props)) + EndJoinerOf(props) + arr[|arr| - 1]
  }

  /** Two items: the first, the end joiner, the second. */
  lemma Arr2StrPair(a: string, b: string, joiner: Option<string>, endJoiner: Option<string>)
    ensures var props := Arr2StrProps([a, b], joiner, endJoiner);
      Arr2Str(props) == a + EndJoinerOf(props) + b
  {
    assert [a, b][..1] == [a];
  }

  /**
   Adding an item after at least two moves the previous last item in front
   of the end joiner behind a joiner.
   */
  lemma Arr2StrAppend(arr: seq<string>, x: string, y: string, joiner: Option<string>, endJoiner: Option<string>)
    requires |arr| >= 1
    ensures var props := Arr2StrProps(arr + [x, y], joiner, endJoiner);
      Arr2Str(props) == Join(arr, JoinerOf(props)) + JoinerOf(props) + x + EndJoinerOf(props) + y
  {
    var props := Arr2StrProps(arr + [x, y], joiner, endJoiner);
    var all := arr + [x, y];
    assert all[..|all| - 1] == arr + [x];
    JoinSnoc(arr, x, JoinerOf(props));
  }

  /** Length of the prose: all items, one joiner between each neighbouring pair of the first n-1, one end joiner. */
  lemma Arr2StrLength(props: Arr2StrProps)
    requires |props.arr| >= 1
    ensures var n := |props.arr|;
      n == 1 ==> |Arr2Str(props)| == TotalLength(props.arr) + |EndJoinerOf(props)|
    ensures var n := |props.arr|;
      n >= 2 ==> |Arr2Str(props)| == TotalLength(props.arr) + (n - 2) * |JoinerOf(props)| + |EndJoinerOf(props)|
  {
    var arr := props.arr;
    var n := |arr|;
    TotalLengthSnoc(arr[..n - 1], arr[n - 1]);
    assert arr[..n - 1] + [arr[n - 1]] == arr;
    if n >= 2 {
      JoinLength(arr[..n - 1], JoinerOf(props));
    }
  }

  /** With the default joiners, ["a", "b", "c"] reads "a, b and c" and ["a"] reads " and a". */
  lemma Arr2StrDefaults()
    ensures Arr2Str(Arr2StrProps(["a", "b", "c"], None, None)) == "a, b and c"
    ensures Arr2Str(Arr2StrProps(["a"], None, None)) == " and a"
  {
    var abc: seq<string> := ["a", "b", "c"];
    assert abc[..2] == ["a", "b"];
    assert ["a", "b"][1..] == ["b"];
  }

  // ---------------------------------------------------------------------------
  // isEmptyObj, isValidStr
  // ---------------------------------------------------------------------------

  /**
   A JavaScript value as these helpers see it. Numbers, objects, functions and
   the like are `Other`, known only by whether they are truthy (`0` is not).
   */
  datatype Value = Null | Undefined | Bool(b: bool) | Str(s: string) | Other(truthy: bool)

  /** JavaScript truthiness. */
  function Truthy(v: Value): (r: bool)
    ensures r <==> v !in {Null, Undefined, Bool(false), Str(""), Other(false)}
  {
    match v
    case Null => false
    case Undefined => false
    case Bool(b) => b
    case Str(s) => |s| > 0
    case Other(t) => t
  }

  /** The test `isEmptyObj` applies to each value: null, undefined, or a string that trims to "". */
  function IsBlank(v: Value): (r: bool)
    ensures r <==> v == Null || v == Undefined || (v.Str? && forall k :: 0 <= k < |v.s| ==> IsWs(v.s[k]))
  {
    if v.Str? then TrimEmptyIff(v.s); Trim(v.s) == []
    else v == Null || v == Undefined
  }

  /**
   `isEmptyObj`: `Object.values(obj).every(IsBlank)`. The record is given by
   its values in enumeration order; its keys play no part.
   */
  function IsEmptyObj(values: seq<Value>): (r: bool)
    ensures r <==> forall i :: 0 <= i < |values| ==> IsBlank(values[i])
  {
    if values == [] then true else IsBlank(values[0]) && IsEmptyObj(values[1..])
  }

  /**
   A record is empty exactly when every value is null, undefined, or a string
   made only of whitespace; a record with no values is empty.
   */
  lemma IsEmptyObjIff(values: seq<Value>)
    ensures IsEmptyObj(values) <==> forall i :: 0 <= i < |values| ==>
      || values[i] == Null
      || values[i] == Undefined
      || (values[i].Str? && forall k :: 0 <= k < |values[i].s| ==> IsWs(values[i].s[k]))
  {
    forall i | 0 <= i < |values| && values[i].Str? {
      TrimEmptyIff(values[i].s);
    }
  }

  /** `{a: null, b: "  "}` and `{}` are empty. */
  lemma IsEmptyObjExamples()
    ensures IsEmptyObj([Null, Str("  ")])
    ensures IsEmptyObj([])
  {
    TrimEmptyIff("  ");
  }

  /** `{a: 0}` is not empty (zero is not blank), and neither is `{a: "x"}`. */
  lemma IsEmptyObjCounterExamples()
    ensures !IsEmptyObj([Other(false)])
    ensures !IsEmptyObj([Str("x")])
  {
    assert !IsWs('x');
    assert TrimStart("x") == "x";
    assert Trim("x") == "x";
  }

  /**
   `isValidStr`: `s && typeof s === 'string'`. A falsy argument is returned
   as it is; a truthy one yields whether it is a string.
   */
  function IsValidStr(v: Value): (r: Value)
    ensures Truthy(r) <==> v.Str? && |v.s| > 0
    ensures !Truthy(v) ==> r == v
    ensures Truthy(v) ==> r.Bool?
  {
    if !Truthy(v) then v else Bool(v.Str?)
  }
}
