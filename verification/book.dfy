/** The `Book` entity and the static validity its data annotations declare:
    `[Required, StringLength(200)]` on Title and Author, `[Range(0, 100000)]`
    on Price, and no annotation on Id. */
module Books {
  import opened Optional

  /** A C# `int`: the type of the Id column and of the route id. */
  type Int32 = x: int | -0x8000_0000 <= x < 0x8000_0000

  /** A C# `string`: a reference that may be null. The characters are Unicode
      scalar values; `Utf16Length` gives the length .NET reports. */
  type NetString = Option<string>

  /** One catalog row. `price` stands for the C# `decimal`, which is an exact
      decimal fraction, so a `real` carries it without rounding. */
  datatype Book = Book(id: Int32, title: NetString, author: NetString, price: real)

  const MaxTitleLength: nat := 200
  const MaxAuthorLength: nat := 200
  const MinPrice: real := 0.0
  const MaxPrice: real := 100000.0

  /** `char.IsWhiteSpace`: the Unicode space, line and paragraph separators
      together with the control characters U+0009..U+000D and U+0085. */
  predicate IsWhiteSpace(c: char)
  {
    || '\U{0009}' <= c <= '\U{000D}'
    || c == ' '
    || c == '\U{0085}'
    || c == '\U{00A0}'
    || c == '\U{1680}'
    || '\U{2000}' <= c <= '\U{200A}'
    || c == '\U{2028}'
    || c == '\U{2029}'
    || c == '\U{202F}'
    || c == '\U{205F}'
    || c == '\U{3000}'
  }

  /** True when every character of `s` is white space (so also for ""). */
  function AllWhiteSpace(s: string): (r: bool)
    ensures r <==> forall i :: 0 <= i < |s| ==> IsWhiteSpace(s[i])
  {
    if |s| == 0 then true
    else IsWhiteSpace(s[0]) && AllWhiteSpace(s[1..])
  }

  /** `string.IsNullOrWhiteSpace`. */
  predicate IsNullOrWhiteSpace(v: NetString)
  {
    match v
    case None => true
    case Some(s) => AllWhiteSpace(s)
  }

  /** `string.Length`: the number of UTF-16 code units, so a character
      outside the Basic Multilingual Plane counts twice. */
  function Utf16Length(s: string): (n: nat)
    ensures |s| <= n <= 2 * |s|
    ensures n == |s| <==> forall i :: 0 <= i < |s| ==> s[i] as int < 0x1_0000
  {
    if |s| == 0 then 0
    else (if s[0] as int < 0x1_0000 then 1 else 2) + Utf16Length(s[1..])
  }

  /** The .NET length of a single character: one code unit inside the Basic
      Multilingual Plane, a surrogate pair outside it. */
  lemma OneCharUtf16Length(c: char)
    ensures Utf16Length([c]) == if c as int < 0x1_0000 then 1 else 2
  {
  }

  /** The .NET length of a concatenation is the sum of the lengths; with
      `OneCharUtf16Length` this fixes the value of every `Utf16Length(s)`. */
  lemma {:induction false} Utf16LengthAppend(s: string, t: string)
    ensures Utf16Length(s + t) == Utf16Length(s) + Utf16Length(t)
    decreases |s|
  {
    if |s| == 0 {
      assert s + t == t;
    } else {
      assert (s + t)[1..] == s[1..] + t;
      Utf16LengthAppend(s[1..], t);
    }
  }

  /** `[Required]` with its default `AllowEmptyStrings = false`: the value is
      present and holds at least one character that is not white space. */
  predicate RequiredHolds(v: NetString)
  {
    !IsNullOrWhiteSpace(v)
  }

  /** `[StringLength(max)]` with the default minimum of 0: null passes, and a
      string passes when its .NET length is at most `max`. */
  predicate StringLengthHolds(v: NetString, max: nat)
  {
    match v
    case None => true
    case Some(s) => Utf16Length(s) <= max
  }

  /** `[Range(0, 100000)]`: both ends inclusive. */
  predicate RangeHolds(price: real)
  {
    MinPrice <= price <= MaxPrice
  }

  predicate TitleValid(b: Book)
  {
    RequiredHolds(b.title) && StringLengthHolds(b.title, MaxTitleLength)
  }

  predicate AuthorValid(b: Book)
  {
    RequiredHolds(b.author) && StringLengthHolds(b.author, MaxAuthorLength)
  }

  predicate PriceValid(b: Book)
  {
    RangeHolds(b.price)
  }

  /** The model state a bound `Book` produces; Id carries no annotation. */
  predicate Valid(b: Book)
  {
    TitleValid(b) && AuthorValid(b) && PriceValid(b)
  }

  /** One failed annotation, as the validator reports it per field. */
  datatype Violation =
    | TitleRequired | TitleTooLong
    | AuthorRequired | AuthorTooLong
    | PriceOutOfRange

  /** The error message attached to each violation: the `ErrorMessage` given
      on Price, and the framework's default text for the other attributes.
      It documents the texts only; no outcome of the model carries them. */
  function Message(v: Violation): string
  {
    match v
    case TitleRequired => "The Title field is required."
    case TitleTooLong => "The field Title must be a string with a maximum length of 200."
    case AuthorRequired => "The Author field is required."
    case AuthorTooLong => "The field Author must be a string with a maximum length of 200."
    case PriceOutOfRange => "Price must be between 0 and 100000."
  }

  /** Every annotation of `b` that fails, each checked on its own. */
  function Violations(b: Book): (r: set<Violation>)
    ensures r == {} <==> Valid(b)
    ensures TitleRequired in r <==>
              b.title.None? || forall i :: 0 <= i < |b.title.value| ==> IsWhiteSpace(b.title.value[i])
    ensures TitleTooLong in r <==> b.title.Some? && Utf16Length(b.title.value) > MaxTitleLength
    ensures AuthorRequired in r <==>
              b.author.None? || forall i :: 0 <= i < |b.author.value| ==> IsWhiteSpace(b.author.value[i])
    ensures AuthorTooLong in r <==> b.author.Some? && Utf16Length(b.author.value) > MaxAuthorLength
    ensures (TitleRequired in r || TitleTooLong in r) <==> !TitleValid(b)
    ensures (AuthorRequired in r || AuthorTooLong in r) <==> !AuthorValid(b)
    ensures PriceOutOfRange in r <==> !PriceValid(b)
  {
    (if RequiredHolds(b.title) then {} else {TitleRequired})
    + (if StringLengthHolds(b.title, MaxTitleLength) then {} else {TitleTooLong})
    + (if RequiredHolds(b.author) then {} else {AuthorRequired})
    + (if StringLengthHolds(b.author, MaxAuthorLength) then {} else {AuthorTooLong})
    + (if RangeHolds(b.price) then {} else {PriceOutOfRange})
  }

  /** A valid text field in plain terms: present, not empty, at least one
      character that is not white space, and at most `max` characters long. */
  ghost predicate PresentAndShort(v: NetString, max: nat)
  {
    && v.Some?
    && 0 < |v.value| <= max
    && (exists i :: 0 <= i < |v.value| && !IsWhiteSpace(v.value[i]))
  }

  /** Passing `[Required, StringLength(max)]` means the field is present,
      non-blank and at most `max` characters; for text inside the Basic
      Multilingual Plane the converse holds as well. */
  lemma RequiredAndLength(v: NetString, max: nat)
    ensures RequiredHolds(v) && StringLengthHolds(v, max) ==> PresentAndShort(v, max)
    ensures PresentAndShort(v, max) && (forall i :: 0 <= i < |v.value| ==> v.value[i] as int < 0x1_0000)
            ==> RequiredHolds(v) && StringLengthHolds(v, max)
  {
  }

  /** The field-level reading of `Valid`: Title and Author present, non-blank
      and at most 200 characters, and the price in [0, 100000]. Id is free. */
  lemma ValidMeans(b: Book)
    ensures Valid(b) ==>
              && PresentAndShort(b.title, MaxTitleLength)
              && PresentAndShort(b.author, MaxAuthorLength)
              && 0.0 <= b.price <= 100000.0
    ensures Valid(b) ==> forall id: Int32 :: Valid(b.(id := id))
  {
  }
}
