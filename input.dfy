/**
 * What the console layer hands to the to-do list once a line has been read
 * and run through the .NET parsing helpers: `int.TryParse` becomes an
 * `Option<int>`, `string.IsNullOrWhiteSpace` becomes `IsBlank`, and the
 * three due-date prompts become one `DateInput`.
 */
module Input {

  datatype Option<+T> = None | Some(value: T)

  /** The three answers to the day, month and year prompts, each already run through `int.TryParse`. */
  datatype DateInput = DateInput(day: Option<int>, month: Option<int>, year: Option<int>)

  /**
   * `char.IsWhiteSpace` of .NET: the Unicode space, line and paragraph
   * separators plus the control characters U+0009..U+000D and U+0085.
   */
  predicate IsWhiteSpace(c: char) {
    || ('\U{0009}' <= c <= '\U{000D}')
    || c == '\U{0020}'
    || c == '\U{0085}'
    || c == '\U{00A0}'
    || c == '\U{1680}'
    || ('\U{2000}' <= c <= '\U{200A}')
    || c == '\U{2028}'
    || c == '\U{2029}'
    || c == '\U{202F}'
    || c == '\U{205F}'
    || c == '\U{3000}'
  }

  /**
   * `string.IsNullOrWhiteSpace`: empty or nothing but white space.  A line
   * that `Console.ReadLine` could not read (end of input, `null`) is passed
   * here as the empty string, which is blank as well.
   */
  predicate IsBlank(s: string): (r: bool)
    ensures s == [] ==> r
    ensures r <==> forall c :: c in s ==> IsWhiteSpace(c)
  {
    forall i :: 0 <= i < |s| ==> IsWhiteSpace(s[i])
  }

}
