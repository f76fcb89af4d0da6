/**
 * Author metadata carried by an input file's name,
 * `id.gender.age.industry.sign.ext`, and the age bucket derived from it.
 */
module Metadata {
  import opened Wrappers
  import opened Text

  /** What one file name tells about its author. */
  datatype AuthorRecord = AuthorRecord(id: int, gender: string, age: int, industry: string, sign: string)

  /** Why a file name could not be decoded (each one raises in the source). */
  datatype DecodeError =
    | FieldCount(found: nat)   // the five-name unpacking fails
    | BadId(text: string)      // int(id) fails
    | BadAge(text: string)     // int(age) fails

  /**
   * Split the name on `.`, drop the last piece, unpack the other five, then
   * parse `id` and `age`, in that order.
   */
  function DecodeFilename(name: string): (r: Result<AuthorRecord, DecodeError>)
    ensures r.Success? ==> |Split(name, '.')| == 6
    ensures r.Success? ==> ParseInt(Split(name, '.')[0]) == Some(r.value.id)
    ensures r.Success? ==> ParseInt(Split(name, '.')[2]) == Some(r.value.age)
    ensures r.Success? ==> r.value.gender == Split(name, '.')[1] && r.value.industry == Split(name, '.')[3]
                           && r.value.sign == Split(name, '.')[4]
  {
    var fields := Split(name, '.');
    if |fields| != 6 then Failure(FieldCount(|fields| - 1))
    else
      match ParseInt(fields[0])
      case None => Failure(BadId(fields[0]))
      case Some(id) =>
        match ParseInt(fields[2])
        case None => Failure(BadAge(fields[2]))
        case Some(age) => Success(AuthorRecord(id, fields[1], age, fields[3], fields[4]))
  }

  /** Decoding succeeds exactly for six pieces whose first and third parse as integers. */
  lemma DecodeSucceedsExactly(name: string)
    ensures DecodeFilename(name).Success? <==>
      |Split(name, '.')| == 6 && ParseInt(Split(name, '.')[0]).Some? && ParseInt(Split(name, '.')[2]).Some?
  {
  }

  /** The name an author's file carries in the corpus. */
  function EncodeFilename(a: AuthorRecord, ext: string): string {
    Join([IntToString(a.id), a.gender, IntToString(a.age), a.industry, a.sign, ext], '.')
  }

  /** A record whose free-text fields hold no `.` is recovered from its file name. */
  lemma DecodeEncode(a: AuthorRecord, ext: string)
    requires '.' !in a.gender && '.' !in a.industry && '.' !in a.sign && '.' !in ext
    ensures DecodeFilename(EncodeFilename(a, ext)) == Success(a)
  {
    var parts := [IntToString(a.id), a.gender, IntToString(a.age), a.industry, a.sign, ext];
    IntToStringChars(a.id);
    IntToStringChars(a.age);
    assert '.' !in IntToString(a.id) && '.' !in IntToString(a.age);
    JoinSplit(parts, '.');
    IntRoundTrip(a.id);
    IntRoundTrip(a.age);
  }

  /** A name with too few or too many dots is refused, whatever the pieces say. */
  lemma WrongShapeRefused(name: string)
    requires |Split(name, '.')| != 6
    ensures DecodeFilename(name) == Failure(FieldCount(|Split(name, '.')| - 1))
  {
  }

  // ---------------------------------------------------------------------------
  // Age buckets
  // ---------------------------------------------------------------------------

  datatype AgeLabel = Teens | Twenties | Thirties {
    /** The directory name of the bucket. */
    function Name(): string {
      match this
      case Teens => "10s"
      case Twenties => "20s"
      case Thirties => "30s"
    }

    /** Position of the bucket in age order. */
    function Rank(): nat {
      match this
      case Teens => 0
      case Twenties => 1
      case Thirties => 2
    }

    /** The ages the bucket stands for: below 20, 20 to 29, 30 and above. */
    predicate Covers(age: int) {
      match this
      case Teens => age < 20
      case Twenties => 20 <= age < 30
      case Thirties => 30 <= age
    }
  }

  /** The if-chain that picks an author's label. */
  function LabelOf(age: int): (l: AgeLabel)
    ensures l.Covers(age)
  {
    if age < 20 then Teens
    else if age < 30 then Twenties
    else Thirties
  }

  /** Every age is covered by exactly one bucket, so the label is determined by it. */
  lemma BucketsPartition(age: int, l: AgeLabel)
    ensures l.Covers(age) <==> l == LabelOf(age)
  {
  }

  /** Older authors never get a younger bucket. */
  lemma LabelMonotone(a: int, b: int)
    requires a <= b
    ensures LabelOf(a).Rank() <= LabelOf(b).Rank()
  {
  }

  /** Bucket names are distinct and hold no path separator. */
  lemma LabelNames(l: AgeLabel, m: AgeLabel)
    ensures l.Name() == m.Name() <==> l == m
    ensures '/' !in l.Name()
  {
  }
}
