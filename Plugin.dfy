/** The plugin object of src/main/java/ibios/domains/Domains.java: the
    settings `run` derives from the chosen file, the title copy of the
    aberration correction, and the bookkeeping half of the domain analysis
    (which files it writes, and what it adds to the results table). The
    image algorithms themselves are ImageJ's and enter only as parameters. */
module Plugin {
  import opened JavaLang
  import opened Naming
  import opened Results

  /** An ImageJ image as the bookkeeping sees it: its title, and pixels that
      only ImageJ's own code computes on. */
  datatype Picture<P> = Picture(title: string, pixels: P)

  /** `RemoveAbberation`: the pixels are the sum ImageJ's image calculator
      makes of the segmentation and the correction mask (`sum`); the title
      is copied from the input, so every file name derived from it stays
      the same as without the correction. */
  function RemoveAbberation<P>(img: Picture<P>, sum: P): (r: Picture<P>)
    ensures r.pixels == sum
    ensures forall dir, suffix :: ImagePath(dir, r.title, suffix) == ImagePath(dir, img.title, suffix)
    ensures forall dir :: TablePath(dir, r.title) == TablePath(dir, img.title)
  {
    Picture(img.title, sum)
  }

  /** How `DomainAnalysis` ends: with the three paths it used (the outline
      image it saved, the stack image it reopened, the table it saved), or
      with the Java exception that ended it. */
  datatype Outcome =
    | Saved(outlinesPath: string, stackPath: string, tablePath: string)
    | Aborted(fault: Fault)

  class Domains {
    var dir: string
    var name: string
    var experiment: string
    var colnames: seq<string>
    var numCols: nat

    /** A fresh plugin: experiment template "experiment"; the directory, file
        name and column names (null in Java) are empty until `Open`. */
    constructor ()
      ensures experiment == DefaultExperiment
      ensures dir == "" && name == "" && colnames == [] && numCols == 0
    {
      dir := "";
      name := "";
      experiment := DefaultExperiment;
      colnames := [];
      numCols := 0;
    }

    /** `setExperiment`: the comma-separated column template. */
    method SetExperiment(e: string)
      modifies this`experiment
      ensures experiment == e
    {
      experiment := e;
    }

    /** The field set-up of `run` once a file was chosen: the directory, the
        file name with every ".lif" removed, and the column names parsed
        from the experiment template, with their count. */
    method Open(directory: string, fileName: string)
      modifies this`dir, this`name, this`colnames, this`numCols
      ensures dir == directory && name == RemoveAll(fileName, ".lif")
      ensures colnames == ColumnNames(experiment) && numCols == |colnames|
    {
      dir := directory;
      name := RemoveAll(fileName, ".lif");
      colnames := ColumnNames(experiment);
      numCols := |colnames|;
    }

    /** The broadcast of the tokens of `outlinesTitle` into a table of `rows`
        rows runs past the column names. */
    predicate Overflows(rows: nat, outlinesTitle: string)
      reads this
      requires HasSecondToken(StripSpaces(outlinesTitle), '-')
    {
      rows > 0 && |ExperimentTokens(outlinesTitle, name).value| > |colnames|
    }

    /** The bookkeeping of `DomainAnalysis`, on the table `rt` the particle
        analysis filled, whose outline image is titled `outlinesTitle`; `title`
        is the analysed image's title, `rois` the outlines in the ROI
        manager's order, and `stack` the statistics of the reopened stack
        image inside an outline (`None` when opening it gave null).
        In order: the outline image's path (a title without a second
        "-"-token throws IndexOutOfBounds), the experiment tokens, the
        metadata broadcast (which throws IndexOutOfBounds when there are
        more tokens than column names and at least one row), the table
        path, the stack image's path (same fault as the first), and the ROI
        loop, which throws NullPointer on the first outline when the stack
        image is missing. `afterMetadata` is the table's cells once the
        broadcast is over. */
    method DomainAnalysis<R>(rt: ResultsTable, title: string, outlinesTitle: string, rois: seq<R>, stack: Option<R -> RoiStat>)
        returns (outcome: Outcome, ghost afterMetadata: map<Key, Cell>)
      requires rt.Valid()
      modifies rt
      ensures rt.Valid()
      ensures !HasSecondToken(StripSpaces(outlinesTitle), '-') ==>
        outcome == Aborted(IndexOutOfBounds) && rt.cells == old(rt.cells) && rt.rows == old(rt.rows)
      ensures HasSecondToken(StripSpaces(outlinesTitle), '-') && Overflows(old(rt.rows), outlinesTitle) ==>
        && outcome == Aborted(IndexOutOfBounds) && rt.rows == old(rt.rows)
        && Broadcasted(old(rt.cells), rt.cells, colnames, ExperimentTokens(outlinesTitle, name).value, 0, 0, |colnames|)
      ensures HasSecondToken(StripSpaces(outlinesTitle), '-') && !Overflows(old(rt.rows), outlinesTitle) ==>
        var values := ExperimentTokens(outlinesTitle, name).value;
        Broadcasted(old(rt.cells), afterMetadata, colnames, values, old(rt.rows), Min(|values|, |colnames|), 0)
      ensures HasSecondToken(StripSpaces(outlinesTitle), '-') && !Overflows(old(rt.rows), outlinesTitle)
              && !HasSecondToken(StripSpaces(title), '-') ==>
        outcome == Aborted(IndexOutOfBounds) && rt.cells == afterMetadata && rt.rows == old(rt.rows)
      ensures HasSecondToken(StripSpaces(outlinesTitle), '-') && !Overflows(old(rt.rows), outlinesTitle)
              && HasSecondToken(StripSpaces(title), '-') && stack.None? && rois != [] ==>
        outcome == Aborted(NullPointer) && rt.cells == afterMetadata && rt.rows == old(rt.rows)
      ensures HasSecondToken(StripSpaces(outlinesTitle), '-') && !Overflows(old(rt.rows), outlinesTitle)
              && HasSecondToken(StripSpaces(title), '-') && (stack.Some? || rois == []) ==>
        && outcome == Saved(ImagePath(dir, outlinesTitle, "outlines").value,
                            ImagePath(dir, title, "stack").value,
                            TablePath(dir, outlinesTitle).value)
        && rt.rows == (if |rois| > old(rt.rows) then |rois| else old(rt.rows))
        && (stack.Some? ==> RoiFilled(afterMetadata, rt.cells, rois, stack.value, |rois|))
        && (stack.None? ==> rt.cells == afterMetadata)
    {
      afterMetadata := rt.cells;
      var outlinesPath := ImagePath(dir, outlinesTitle, "outlines");
      if outlinesPath.Fail? {
        return Aborted(outlinesPath.fault), afterMetadata;
      }
      var tokens, mismatch := ExperimentName(outlinesTitle, name, numCols);
      var fault := BroadcastMetadata(rt, colnames, tokens.value);
      afterMetadata := rt.cells;
      if fault {
        return Aborted(IndexOutOfBounds), afterMetadata;
      }
      var tablePath := TablePath(dir, outlinesTitle);
      var stackPath := ImagePath(dir, title, "stack");
      if stackPath.Fail? {
        return Aborted(stackPath.fault), afterMetadata;
      }
      match stack {
        case None =>
          if rois != [] {
            return Aborted(NullPointer), afterMetadata;
          }
        case Some(measure) =>
          FillRoiStats(rt, rois, measure);
      }
      outcome := Saved(outlinesPath.value, stackPath.value, tablePath.value);
    }
  }
}
