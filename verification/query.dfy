/**
  Building the Open Trivia DB request URL from the game settings
  (scripts.js, `fetchQuestions`, lines 6-9).

  The URL is `https://opentdb.com/api.php?amount=N`, then `&category=C`
  unless the category is the wildcard `any`, then `&difficulty=D&type=T`.
  Besides the shape of the string, this module proves that splitting the
  query part on `&` gives back exactly the parameters, in that order.
 */
module Query {

  /** The settings form values, as the strings the form yields. */
  datatype Settings = Settings(amount: string, category: string, difficulty: string, answerType: string)

  /** The defaults of `fetchQuestions`: 10 questions, any category, medium, multiple choice. */
  const DefaultSettings: Settings := Settings("10", "any", "medium", "multiple")

  const AnyCategory: string := "any"
  const Api: string := "https://opentdb.com/api.php?"
  const Separator: char := '&'

  /** One query parameter, `key=value`. */
  function Param(key: string, value: string): string {
    key + "=" + value
  }

  /** The optional category filter. */
  function CategoryFilter(category: string): string {
    if category == AnyCategory then "" else [Separator] + Param("category", category)
  }

  /** The mandatory tail of every query. */
  function Tail(s: Settings): string {
    [Separator] + Param("difficulty", s.difficulty) + [Separator] + Param("type", s.answerType)
  }

  /** The request URL. */
  function Endpoint(s: Settings): (url: string)
    ensures |url| >= |Api| + |Param("amount", s.amount)| + |Tail(s)|
    ensures url[..|Api| + |Param("amount", s.amount)|] == Api + Param("amount", s.amount)
    ensures url[|url| - |Tail(s)|..] == Tail(s)
    ensures s.category == AnyCategory <==> |url| == |Api| + |Param("amount", s.amount)| + |Tail(s)|
    ensures s.category != AnyCategory ==>
              url[|Api| + |Param("amount", s.amount)|..|url| - |Tail(s)|]
              == [Separator] + Param("category", s.category)
  {
    var head := Api + Param("amount", s.amount);
    var url := head + CategoryFilter(s.category) + Tail(s);
    assert url[..|head|] == head;
    assert url[|url| - |Tail(s)|..] == Tail(s);
    assert url[|head|..|url| - |Tail(s)|] == CategoryFilter(s.category);
    url
  }

  /** Splits a string at every occurrence of `sep`; an empty string is one empty part. */
  function Split(str: string, sep: char): (parts: seq<string>)
    ensures |parts| >= 1
  {
    if |str| == 0 then [""]
    else
      var rest := Split(str[1..], sep);
      if str[0] == sep then [""] + rest
      else [[str[0]] + rest[0]] + rest[1..]
  }

  /** True when `sep` does not occur in `str`. */
  predicate Free(str: string, sep: char) {
    forall i :: 0 <= i < |str| ==> str[i] != sep
  }

  lemma {:induction false} SplitFree(a: string, sep: char)
    requires Free(a, sep)
    ensures Split(a, sep) == [a]
    decreases |a|
  {
    if |a| > 0 {
      SplitFree(a[1..], sep);
      assert [a[0]] + a[1..] == a;
    }
  }

  lemma {:induction false} SplitAt(a: string, sep: char, b: string)
    requires Free(a, sep)
    ensures Split(a + [sep] + b, sep) == [a] + Split(b, sep)
    decreases |a|
  {
    var str := a + [sep] + b;
    if |a| == 0 {
      assert str[1..] == b;
    } else {
      assert str[1..] == a[1..] + [sep] + b;
      SplitAt(a[1..], sep, b);
      assert [a[0]] + a[1..] == a;
    }
  }

  /** Joins the parts with `sep` between neighbours. */
  function Join(parts: seq<string>, sep: char): string
    requires |parts| >= 1
    decreases |parts|
  {
    if |parts| == 1 then parts[0] else parts[0] + [sep] + Join(parts[1..], sep)
  }

  /** Splitting undoes joining when no part contains the separator. */
  lemma {:induction false} SplitJoin(parts: seq<string>, sep: char)
    requires |parts| >= 1
    requires forall i :: 0 <= i < |parts| ==> Free(parts[i], sep)
    ensures Split(Join(parts, sep), sep) == parts
    decreases |parts|
  {
    if |parts| == 1 {
      SplitFree(parts[0], sep);
    } else {
      SplitJoin(parts[1..], sep);
      SplitAt(parts[0], sep, Join(parts[1..], sep));
      assert [parts[0]] + parts[1..] == parts;
    }
  }

  lemma Join3(a: string, b: string, c: string, sep: char)
    ensures Join([a, b, c], sep) == a + [sep] + b + [sep] + c
  {
    assert [a, b, c][1..] == [b, c];
    assert [b, c][1..] == [c];
    assert Join([c], sep) == c;
    assert Join([b, c], sep) == b + [sep] + c;
    assert a + [sep] + (b + [sep] + c) == a + [sep] + b + [sep] + c;
  }

  lemma Join4(a: string, b: string, c: string, d: string, sep: char)
    ensures Join([a, b, c, d], sep) == a + [sep] + b + [sep] + c + [sep] + d
  {
    assert [a, b, c, d][1..] == [b, c, d];
    Join3(b, c, d, sep);
    assert a + [sep] + (b + [sep] + c + [sep] + d) == a + [sep] + b + [sep] + c + [sep] + d;
  }

  /** The part after the API address, without the category filter. */
  lemma QueryShape3(api: string, a: string, d: string, t: string, sep: char)
    ensures (api + a + "" + ([sep] + d + [sep] + t))[|api|..] == a + [sep] + d + [sep] + t
  {
    assert api + a + "" + ([sep] + d + [sep] + t) == api + (a + [sep] + d + [sep] + t);
  }

  /** The part after the API address, with the category filter. */
  lemma QueryShape4(api: string, a: string, c: string, d: string, t: string, sep: char)
    ensures (api + a + ([sep] + c) + ([sep] + d + [sep] + t))[|api|..] == a + [sep] + c + [sep] + d + [sep] + t
  {
    assert api + a + ([sep] + c) + ([sep] + d + [sep] + t) == api + (a + [sep] + c + [sep] + d + [sep] + t);
  }

  lemma ParamFree(key: string, value: string)
    requires Free(key, Separator) && Free(value, Separator)
    ensures Free(Param(key, value), Separator)
  {
  }

  /** A setting whose value cannot leak into the next parameter. */
  predicate WellFormed(s: Settings) {
    Free(s.amount, Separator) && Free(s.category, Separator)
    && Free(s.difficulty, Separator) && Free(s.answerType, Separator)
  }

  /** With the defaults of `fetchQuestions` the request has no category filter. */
  lemma DefaultEndpoint()
    ensures Endpoint(DefaultSettings) == Api + Param("amount", DefaultSettings.amount) + Tail(DefaultSettings)
  {
    assert CategoryFilter(DefaultSettings.category) == [];
  }

  /**
    When no setting contains `&`, the query string (the URL after `?`)
    splits into exactly the parameters `amount`, then `category` only for a
    non-wildcard category, then `difficulty` and `type`, in this order.
   */
  lemma QueryParameters(s: Settings)
    requires WellFormed(s)
    ensures s.category == AnyCategory ==>
              Split(Endpoint(s)[|Api|..], Separator)
              == [Param("amount", s.amount), Param("difficulty", s.difficulty), Param("type", s.answerType)]
    ensures s.category != AnyCategory ==>
              Split(Endpoint(s)[|Api|..], Separator)
              == [Param("amount", s.amount), Param("category", s.category),
                  Param("difficulty", s.difficulty), Param("type", s.answerType)]
  {
    var a, c := Param("amount", s.amount), Param("category", s.category);
    var d, t := Param("difficulty", s.difficulty), Param("type", s.answerType);
    ParamFree("amount", s.amount);
    ParamFree("category", s.category);
    ParamFree("difficulty", s.difficulty);
    ParamFree("type", s.answerType);
    if s.category == AnyCategory {
      QueryShape3(Api, a, d, t, Separator);
      Join3(a, d, t, Separator);
      SplitJoin([a, d, t], Separator);
    } else {
      QueryShape4(Api, a, c, d, t, Separator);
      Join4(a, c, d, t, Separator);
      SplitJoin([a, c, d, t], Separator);
    }
  }
}
