/**
 * The client's display helpers: the relative age shown next to a comment and the
 * coloured initial shown as its author's avatar.
 */
module Helpers {
  import opened JsString

  const SecondsPerMinute := 60
  const SecondsPerHour := 3600
  const SecondsPerDay := 86400
  const SecondsPerMonth := 2592000

  /** `Math.floor((now - commentTime) / 1000)` for instants in milliseconds: the whole
      seconds elapsed, rounded down (negative for a comment stamped in the future). */
  function ElapsedSeconds(nowMs: int, thenMs: int): (d: int)
    ensures d * 1000 <= nowMs - thenMs < (d + 1) * 1000
  {
    (nowMs - thenMs) / 1000
  }

  /** The bucket `formatTimestamp` puts an age in, with the count it shows. */
  datatype Age = Seconds(count: int) | Minutes(count: int) | Hours(count: int) | Days(count: int) | Older

  /** The age of a comment `diff` seconds old, by the thresholds 60, 3600, 86400 and
      2592000 (thirty days); each count is the age in that unit, rounded down. */
  function AgeOf(diff: int): (a: Age)
    ensures a.Seconds? <==> diff < SecondsPerMinute
    ensures a.Minutes? <==> SecondsPerMinute <= diff < SecondsPerHour
    ensures a.Hours? <==> SecondsPerHour <= diff < SecondsPerDay
    ensures a.Days? <==> SecondsPerDay <= diff < SecondsPerMonth
    ensures a.Older? <==> SecondsPerMonth <= diff
    ensures a.Seconds? ==> a.count == diff
    ensures a.Minutes? ==> 1 <= a.count <= 59 && a.count * SecondsPerMinute <= diff < (a.count + 1) * SecondsPerMinute
    ensures a.Hours? ==> 1 <= a.count <= 23 && a.count * SecondsPerHour <= diff < (a.count + 1) * SecondsPerHour
    ensures a.Days? ==> 1 <= a.count <= 29 && a.count * SecondsPerDay <= diff < (a.count + 1) * SecondsPerDay
  {
    if diff < SecondsPerMinute then Seconds(diff)
    else if diff < SecondsPerHour then Minutes(diff / SecondsPerMinute)
    else if diff < SecondsPerDay then Hours(diff / SecondsPerHour)
    else if diff < SecondsPerMonth then Days(diff / SecondsPerDay)
    else Older
  }

  /** Position of a bucket from the finest to the coarsest. */
  function Rank(a: Age): nat
  {
    match a
    case Seconds(_) => 0
    case Minutes(_) => 1
    case Hours(_) => 2
    case Days(_) => 3
    case Older => 4
  }

  /** As a comment gets older it never moves to a finer bucket, and within a bucket the
      count it shows never goes down. */
  lemma AgeIsMonotone(d1: int, d2: int)
    requires d1 <= d2
    ensures Rank(AgeOf(d1)) <= Rank(AgeOf(d2))
    ensures Rank(AgeOf(d1)) == Rank(AgeOf(d2)) && !AgeOf(d1).Older? ==> AgeOf(d1).count <= AgeOf(d2).count
  {
  }

  /** The unit letter `formatTimestamp` writes after a count. */
  function UnitLetter(a: Age): char
    requires !a.Older?
  {
    match a
    case Seconds(_) => 's'
    case Minutes(_) => 'm'
    case Hours(_) => 'h'
    case Days(_) => 'd'
  }

  /** `formatTimestamp(timestamp)` at instant `nowMs`: `<count><unit> ago` for an age under
      thirty days, otherwise `localeDate`, which stands for `toLocaleDateString()` of the
      comment's instant (its text depends on the browser's locale). */
  function FormatTimestamp(nowMs: int, thenMs: int, localeDate: string): (s: string)
  {
    var age := AgeOf(ElapsedSeconds(nowMs, thenMs));
    if age.Older? then localeDate else IntToDecimal(age.count) + [UnitLetter(age)] + " ago"
  }

  /** For a comment between 0 seconds and thirty days old the text is a decimal count, a
      unit letter and " ago"; the count reads back as the elapsed time in that unit, rounded
      down. From thirty days on it is the locale date. */
  lemma FormatTimestampReadsBack(nowMs: int, thenMs: int, localeDate: string)
    requires nowMs >= thenMs
    ensures var s := FormatTimestamp(nowMs, thenMs, localeDate);
      var diff := ElapsedSeconds(nowMs, thenMs);
      var age := AgeOf(diff);
      && (age.Older? ==> s == localeDate)
      && (!age.Older? ==>
            && |s| >= 6
            && s[|s| - 4..] == " ago"
            && s[|s| - 5] == UnitLetter(age)
            && (forall i :: 0 <= i < |s| - 5 ==> IsDigit(s[i]))
            && DecimalValue(s[..|s| - 5]) == age.count
            && (s[|s| - 5] == 's' ==> age.count == diff)
            && (s[|s| - 5] == 'm' ==> age.count * SecondsPerMinute <= diff < (age.count + 1) * SecondsPerMinute)
            && (s[|s| - 5] == 'h' ==> age.count * SecondsPerHour <= diff < (age.count + 1) * SecondsPerHour)
            && (s[|s| - 5] == 'd' ==> age.count * SecondsPerDay <= diff < (age.count + 1) * SecondsPerDay))
  {
    var diff := ElapsedSeconds(nowMs, thenMs);
    var age := AgeOf(diff);
    if !age.Older? {
      var digits := IntToDecimal(age.count);
      var s := digits + [UnitLetter(age)] + " ago";
      assert s[..|s| - 5] == digits;
      assert s[|s| - 4..] == " ago";
    }
  }

  /** The eight avatar background classes, in the source's order. */
  const AvatarColors: seq<string> := [
    "bg-red-500", "bg-blue-500", "bg-green-500", "bg-yellow-500",
    "bg-purple-500", "bg-pink-500", "bg-indigo-500", "bg-teal-500"
  ]

  /** `c.toUpperCase()` for the Basic Latin and Latin-1 Supplement blocks: lower-case
      letters map to their capitals, which for U+00FF is U+0178, for the micro sign U+00B5
      the Greek capital mu U+039C, and for U+00DF (sharp s) the two letters "SS". */
  function UpperCase(c: char): (u: string)
    ensures |u| == 1 || (c == 'ß' && u == "SS")
    ensures 'a' <= c <= 'z' ==> u == [(c as int - 32) as char]
    ensures 'A' <= c <= 'Z' ==> u == [c]
  {
    if 'a' <= c <= 'z' then [(c as int - 32) as char]
    else if 'à' <= c <= 'þ' && c != '÷' then [(c as int - 32) as char]
    else if c == 'ÿ' then ['Ÿ']
    else if c == 'µ' then ['Μ']
    else if c == 'ß' then "SS"
    else [c]
  }

  /** What `generateAvatar` returns. */
  datatype Avatar = Avatar(color: string, initial: string)

  /** `generateAvatar(username)`: a colour picked by the name's length in UTF-16 code units,
      modulo eight, and the upper-cased first character (empty for an empty name). */
  function GenerateAvatar(username: string): (a: Avatar)
    ensures a.color in AvatarColors
    ensures a.color == AvatarColors[Utf16Length(username) % |AvatarColors|]
    ensures a.initial == [] <==> username == []
    ensures username != [] ==> a.initial == UpperCase(username[0])
  {
    var color := AvatarColors[Utf16Length(username) % |AvatarColors|];
    var initial := if username == [] then [] else UpperCase(username[0]);
    Avatar(color, initial)
  }

  /** The eight colours are distinct, so two names get the same colour exactly when their
      lengths agree modulo eight. */
  lemma AvatarColorByLength(a: string, b: string)
    ensures GenerateAvatar(a).color == GenerateAvatar(b).color <==> Utf16Length(a) % 8 == Utf16Length(b) % 8
  {
    var i, j := Utf16Length(a) % 8, Utf16Length(b) % 8;
    if i != j {
      AvatarColorsDistinct(i, j);
    }
  }

  lemma AvatarColorsDistinct(i: nat, j: nat)
    requires i < 8 && j < 8 && i != j
    ensures AvatarColors[i] != AvatarColors[j]
  {
    assert AvatarColors[i][3] != AvatarColors[j][3] || AvatarColors[i][4] != AvatarColors[j][4]
      || |AvatarColors[i]| != |AvatarColors[j]|;
  }

  /** A name starting with a lower-case ASCII letter gets that letter's capital as its initial. */
  lemma AvatarInitialOfAsciiName(username: string)
    requires username != [] && 'a' <= username[0] <= 'z'
    ensures |GenerateAvatar(username).initial| == 1
    ensures 'A' <= GenerateAvatar(username).initial[0] <= 'Z'
    ensures GenerateAvatar(username).initial[0] as int == username[0] as int - 32
  {
  }
}
