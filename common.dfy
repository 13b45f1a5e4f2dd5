/** Optional values: the model's stand-in for JavaScript's `null`. */
module Wrappers {
  datatype Option<+T> = None | Some(value: T) {
    function GetOr(default: T): T {
      match this
      case Some(v) => v
      case None => default
    }
  }
}

/** Sequence relations shared by the list-handling components. */
module Seqs {
  /** `xs` is obtained from `ys` by deleting elements, keeping the order of the rest. */
  predicate IsSubsequence<T(==)>(xs: seq<T>, ys: seq<T>)
    decreases |ys|
  {
    if xs == [] then true
    else if ys == [] then false
    else if xs[0] == ys[0] then IsSubsequence(xs[1..], ys[1..])
    else IsSubsequence(xs, ys[1..])
  }

  /** Allowing one more element in front of the longer sequence keeps a subsequence. */
  lemma {:induction false} SubsequenceOfTail<T>(xs: seq<T>, ys: seq<T>)
    requires ys != [] && IsSubsequence(xs, ys[1..])
    ensures IsSubsequence(xs, ys)
    decreases |ys|, 1
  {
    if xs != [] && xs[0] == ys[0] {
      SubsequenceDropHead(xs, ys[1..]);
    }
  }

  /** Dropping the first element of a subsequence keeps a subsequence. */
  lemma {:induction false} SubsequenceDropHead<T>(xs: seq<T>, ys: seq<T>)
    requires xs != [] && IsSubsequence(xs, ys)
    ensures IsSubsequence(xs[1..], ys)
    decreases |ys|, 2
  {
    if xs[0] == ys[0] {
      SubsequenceOfTail(xs[1..], ys);
    } else {
      SubsequenceDropHead(xs, ys[1..]);
      SubsequenceOfTail(xs[1..], ys);
    }
  }
}

/** The movie records served by the catalog API and the ways a request to it fails. */
module Catalog {
  import opened Wrappers

  /**
   * A movie as the catalog returns it. Only the fields the core logic reads are
   * kept: the identifier (deduplication) and the adult flag (filtering).
   */
  datatype Movie = Movie(id: int, title: string, adult: bool)

  /** Why a catalog request failed: a response with a non-OK status, or an exception. */
  datatype FetchError = HttpStatus(status: nat) | Thrown(message: string)

  /** Prefix of the message thrown for a non-OK status ("HTTP error! status code: "). */
  const HttpErrorPrefix: string := "HTTP 오류! 상태 코드: "

  function DigitChar(d: nat): (c: char)
    requires d < 10
    ensures '0' <= c <= '9' && DigitValue(c) == d
  {
    ('0' as int + d) as char
  }

  /** The value of a decimal digit character. */
  function DigitValue(c: char): nat
    requires '0' <= c <= '9'
  {
    c as int - '0' as int
  }

  /** Decimal text of a status code, as a template literal renders a number. */
  function Decimal(n: nat): (s: string)
    ensures 1 <= |s|
    ensures forall i :: 0 <= i < |s| ==> '0' <= s[i] <= '9'
  {
    if n < 10 then [DigitChar(n)] else Decimal(n / 10) + [DigitChar(n % 10)]
  }

  /** A run of decimal digits read back as a number, most significant digit first. */
  function ReadDecimal(s: string): nat
    requires forall i :: 0 <= i < |s| ==> '0' <= s[i] <= '9'
  {
    if s == [] then 0 else ReadDecimal(s[..|s| - 1]) * 10 + DigitValue(s[|s| - 1])
  }

  /** Reading the decimal text of a number gives the number back. */
  lemma {:induction false} DecimalReadBack(n: nat)
    ensures ReadDecimal(Decimal(n)) == n
  {
    if n >= 10 {
      var s := Decimal(n);
      assert s[..|s| - 1] == Decimal(n / 10);
      DecimalReadBack(n / 10);
    }
  }

  /**
   * The text a caught error contributes to the view: `err.message`. A non-OK
   * status is reported as the prefix followed by the code's decimal digits.
   */
  function ErrorMessage(e: FetchError): (message: string)
    ensures e.HttpStatus? ==>
      && |HttpErrorPrefix| < |message| && message[..|HttpErrorPrefix|] == HttpErrorPrefix
      && forall i :: |HttpErrorPrefix| <= i < |message| ==> '0' <= message[i] <= '9'
    ensures e.Thrown? ==> message == e.message
  {
    match e
    case HttpStatus(code) => HttpErrorPrefix + Decimal(code)
    case Thrown(m) => m
  }

  /** The status code an error message reports, if it has the non-OK-status form. */
  function ReportedStatus(message: string): Option<nat> {
    var n := |HttpErrorPrefix|;
    if n < |message| && message[..n] == HttpErrorPrefix
       && forall i :: n <= i < |message| ==> '0' <= message[i] <= '9'
    then Some(ReadDecimal(message[n..]))
    else None
  }

  /** The message of a non-OK status names that status: it can be read back from the text. */
  lemma StatusReadBack(e: FetchError)
    requires e.HttpStatus?
    ensures ReportedStatus(ErrorMessage(e)) == Some(e.status)
  {
    var message := ErrorMessage(e);
    assert message[|HttpErrorPrefix|..] == Decimal(e.status);
    DecimalReadBack(e.status);
  }
}

/** Users as the authentication provider and the `users` table describe them. */
module Accounts {
  datatype User = User(id: string, email: string, userName: string)
}
