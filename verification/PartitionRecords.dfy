/** The partitions of a prepared installation, passed on as one line of text each. */
module PartitionRecords {
  import opened Options
  import opened Text

  datatype Record = Record(name: string, mountpoint: string, size: string, fsName: string, partType: string)

  function AsFields(r: Record): seq<string> {
    [r.name, r.mountpoint, r.size, r.fsName, r.partType]
  }

  function Printed(r: Record): string {
    r.name + "\t" + (r.mountpoint + "\t" + (r.size + "\t" + (r.fsName + "\t" + r.partType)))
  }

  /** The reader takes the first five fields; None if there are fewer, which it does not check. */
  function Read(line: string): Option<Record> {
    var fields := Fields(line, '\t');
    if |fields| < 5 then None else Some(Record(fields[0], fields[1], fields[2], fields[3], fields[4]))
  }

  lemma PrintedIsJoined(r: Record)
    ensures Printed(r) == Joined(AsFields(r), '\t')
  {
    hide Joined;
    var a, b, c, d, e := r.name, r.mountpoint, r.size, r.fsName, r.partType;
    JoinedCons(d, [e], '\t');
    JoinedCons(c, [d, e], '\t');
    JoinedCons(b, [c, d, e], '\t');
    JoinedCons(a, [b, c, d, e], '\t');
    JoinedCons(e, [], '\t');
    assert [e] + [] == [e] && [d] + [e] == [d, e] && [c] + [d, e] == [c, d, e];
    assert [b] + [c, d, e] == [b, c, d, e] && [a] + [b, c, d, e] == AsFields(r);
  }

  lemma FieldsOfPrinted(r: Record)
    requires FreeOf(AsFields(r), '\t')
    ensures Fields(Printed(r), '\t') == NonEmpty(AsFields(r))
  {
    PrintedIsJoined(r);
    PiecesOfJoined(AsFields(r), '\t');
    FieldsAreNonEmptyPieces(Printed(r), '\t');
  }

  lemma {:induction false} EmptiesAreDropped(ps: seq<string>)
    ensures |NonEmpty(ps)| <= |ps|
    ensures |NonEmpty(ps)| == |ps| <==> "" !in ps
    ensures "" !in ps ==> NonEmpty(ps) == ps
  {
    if ps != [] {
      EmptiesAreDropped(ps[1..]);
      assert ps == [ps[0]] + ps[1..];
    }
  }

  lemma FieldsHaveNoTab(line: string)
    ensures FreeOf(Fields(line, '\t'), '\t') && "" !in Fields(line, '\t')
  {
    PiecesAreFree(line, '\t');
    NonEmptyKeeps(Pieces(line, '\t'), '\t');
    FieldsAreNonEmptyPieces(line, '\t');
  }

  /** A record reads back exactly if no field is empty or contains a tab; where an empty
      field is the only trouble, the reader looks behind the last field. */
  lemma RecordReadsBackExactly(r: Record)
    ensures Read(Printed(r)) == Some(r) <==> "" !in AsFields(r) && FreeOf(AsFields(r), '\t')
    ensures FreeOf(AsFields(r), '\t') ==> (Read(Printed(r)) == None <==> "" in AsFields(r))
    ensures FreeOf(AsFields(r), '\t') ==>
              Pieces(Printed(r), '\t') == [r.name, r.mountpoint, r.size, r.fsName, r.partType]
  {
    hide Fields, NonEmpty, Pieces, Printed, Joined;
    if FreeOf(AsFields(r), '\t') {
      FieldsOfPrinted(r);
      PrintedIsJoined(r);
      PiecesOfJoined(AsFields(r), '\t');
      EmptiesAreDropped(AsFields(r));
    }
    FieldsHaveNoTab(Printed(r));
    var fields := Fields(Printed(r), '\t');
    if Read(Printed(r)) == Some(r) {
      assert fields[..5] == AsFields(r);
      assert forall f :: f in AsFields(r) ==> f in fields;
    }
  }
}
