/** `mapPrismaError`: which store errors become a BadRequest and which propagate unchanged. */
module StoreErrors {

  import opened Wrappers
  import Text
  import Schema

  /** A store error: its code, and `meta.target` when that is an array of field names. */
  datatype StoreError = StoreError(code: Option<string>, target: Option<seq<string>>)

  datatype Mapped = Rethrown(original: StoreError) | Translated(error: Schema.ApiError)

  const UniqueViolation: string := "P2002"
  const ForeignKeyViolation: string := "P2003"

  function DuplicateMessage(target: Option<seq<string>>): string
  {
    "Duplicate value for " + (if target.Some? then Text.Join(target.value, ", ") else "unique field")
  }

  /**
   * A unique-constraint violation becomes a BadRequest naming the fields, a
   * foreign-key violation a BadRequest about the relation; every other error
   * is rethrown as it came.
   */
  function MapPrismaError(e: StoreError): (m: Mapped)
    ensures m.Translated? <==> e.code == Some(UniqueViolation) || e.code == Some(ForeignKeyViolation)
    ensures m.Rethrown? ==> m.original == e
    ensures m.Translated? ==> m.error.BadRequest?
    ensures e.code == Some(UniqueViolation) ==> m.error.message == DuplicateMessage(e.target)
    ensures e.code == Some(ForeignKeyViolation) ==> m.error.message == "Invalid relation reference in request"
  {
    if e.code == Some(UniqueViolation) then Translated(Schema.BadRequest(DuplicateMessage(e.target)))
    else if e.code == Some(ForeignKeyViolation) then Translated(Schema.BadRequest("Invalid relation reference in request"))
    else Rethrown(e)
  }

  /** The duplicate message lists the fields in order, so each field can be read back from it. */
  lemma DuplicateMessageNamesFields(fields: seq<string>)
    requires |fields| >= 1
    requires forall k :: 0 <= k < |fields| ==> ',' !in fields[k]
    ensures var m := DuplicateMessage(Some(fields));
            |m| >= 20 && m[..20] == "Duplicate value for "
            && Text.Split(m[20..], ',') == [fields[0]] + SpaceAfterComma(fields[1..])
  {
    var m := DuplicateMessage(Some(fields));
    assert m[20..] == Text.Join(fields, ", ");
    JoinCommaSpace(fields);
  }

  function SpaceAfterComma(fields: seq<string>): seq<string>
  {
    seq(|fields|, k requires 0 <= k < |fields| => " " + fields[k])
  }

  lemma {:induction false} JoinCommaSpace(fields: seq<string>)
    requires |fields| >= 1
    requires forall k :: 0 <= k < |fields| ==> ',' !in fields[k]
    ensures Text.Split(Text.Join(fields, ", "), ',') == [fields[0]] + SpaceAfterComma(fields[1..])
  {
    if |fields| == 1 {
      Text.SplitNoSep(fields[0], ',');
    } else {
      var tail := fields[1..];
      JoinCommaSpace(tail);
      var t := Text.Join(tail, ", ");
      assert Text.Join(fields, ", ") == fields[0] + [','] + (" " + t);
      Text.SplitAfterField(fields[0], ',', " " + t);
      var st := Text.Split(t, ',');
      assert st == [tail[0]] + SpaceAfterComma(tail[1..]);
      if tail[0] == [] {
        assert (" " + t)[0] == ' ';
      }
      assert Text.Split(" " + t, ',') == [" " + st[0]] + st[1..] by {
        assert " " + t == [' '] + t;
        assert (" " + t)[1..] == t;
      }
      assert SpaceAfterComma(tail) == [" " + tail[0]] + SpaceAfterComma(tail[1..]);
    }
  }
}
