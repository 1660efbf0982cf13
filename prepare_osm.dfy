/** scripts/01_prepare_osm_rr.py: choose the IBGE state-boundary shapefile, pick the
    Roraima rows from it, and decide which conditions stop the run. The dissolve of
    the picked rows and the road clip are geometry and are left to the caller. */
module PrepareOsm {
  import opened Common
  import opened Text

  const SiglaCandidates: seq<string> := ["SIGLA_UF", "SIGLA", "CD_UF", "UF", "UF_SIGLA", "SG_UF"]
  const NameCandidates: seq<string> := ["NM_UF", "NOME_UF", "NM_ESTADO", "NMUF", "NOME", "NOME_ESTADO"]

  // ---------------------------------------------------------------------------
  // find_col
  // ---------------------------------------------------------------------------

  /** Position of the last column whose lower-cased name is `key`. */
  function LastLowerIndex(cols: seq<string>, key: string): (r: Option<nat>)
    ensures r.Some? ==> r.value < |cols| && Lower(cols[r.value]) == key
    ensures r.Some? ==> forall j :: r.value < j < |cols| ==> Lower(cols[j]) != key
    ensures r.None? <==> forall j :: 0 <= j < |cols| ==> Lower(cols[j]) != key
  {
    if cols == [] then None
    else if Lower(cols[|cols| - 1]) == key then Some(|cols| - 1)
    else LastLowerIndex(cols[..|cols| - 1], key)
  }

  /** `{c.lower(): c for c in columns}`: later columns overwrite earlier ones that
      share their lower-cased name. */
  function LowerMap(cols: seq<string>): (m: map<string, string>)
    ensures forall k :: k in m <==> LastLowerIndex(cols, k).Some?
    ensures forall k :: k in m ==> m[k] == cols[LastLowerIndex(cols, k).value]
  {
    if cols == [] then map[]
    else
      var init := cols[..|cols| - 1];
      assert forall k :: k != Lower(cols[|cols| - 1]) ==> LastLowerIndex(cols, k) == LastLowerIndex(init, k);
      LowerMap(init)[Lower(cols[|cols| - 1]) := cols[|cols| - 1]]
  }

  /** The loop of `find_col` over a prepared map: the entry of the first
      candidate whose lower-cased name is a key. */
  function FirstIn(m: map<string, string>, candidates: seq<string>): Option<string>
  {
    if candidates == [] then None
    else if Lower(candidates[0]) in m then Some(m[Lower(candidates[0])])
    else FirstIn(m, candidates[1..])
  }

  /** `find_col`: builds the lower-cased column map once, then returns the column,
      in its own spelling, of the first candidate found in it. */
  function FindCol(cols: seq<string>, candidates: seq<string>): Option<string>
  {
    FirstIn(LowerMap(cols), candidates)
  }

  /** The candidate the loop stops at: the first one found in the map. */
  lemma {:induction false} FirstInAt(m: map<string, string>, candidates: seq<string>) returns (k: nat)
    requires FirstIn(m, candidates).Some?
    ensures k < |candidates| && Lower(candidates[k]) in m
    ensures FirstIn(m, candidates).value == m[Lower(candidates[k])]
    ensures forall k' :: 0 <= k' < k ==> Lower(candidates[k']) !in m
  {
    if Lower(candidates[0]) in m {
      k := 0;
    } else {
      var k1 := FirstInAt(m, candidates[1..]);
      k := k1 + 1;
      forall k' | 0 <= k' < k
        ensures Lower(candidates[k']) !in m
      {
        if k' > 0 {
          assert candidates[k'] == candidates[1..][k' - 1];
        }
      }
    }
  }

  lemma {:induction false} FirstInNone(m: map<string, string>, candidates: seq<string>)
    ensures FirstIn(m, candidates).None? <==> forall k :: 0 <= k < |candidates| ==> Lower(candidates[k]) !in m
  {
    if candidates != [] && Lower(candidates[0]) !in m {
      FirstInNone(m, candidates[1..]);
      assert forall k :: 1 <= k < |candidates| ==> candidates[k] == candidates[1..][k - 1];
    }
  }

  /** A candidate is in the lower-cased map exactly when some column has its
      lower-cased name. */
  lemma InLowerMap(cols: seq<string>, c: string)
    ensures Lower(c) in LowerMap(cols) <==> exists j :: 0 <= j < |cols| && Lower(c) == Lower(cols[j])
  {
  }

  /** `find_col` returns `None` exactly when no candidate matches a column in any
      letter case; otherwise it matched the first candidate that does, and returns
      the last column of that lower-cased name (the dict keeps the last one). */
  lemma FindColSpec(cols: seq<string>, candidates: seq<string>)
    ensures FindCol(cols, candidates).None? <==>
              forall k, j :: 0 <= k < |candidates| && 0 <= j < |cols| ==> Lower(candidates[k]) != Lower(cols[j])
    ensures FindCol(cols, candidates).Some? ==>
              exists k :: 0 <= k < |candidates| && Lower(candidates[k]) == Lower(FindCol(cols, candidates).value) &&
                forall k', j :: 0 <= k' < k && 0 <= j < |cols| ==> Lower(candidates[k']) != Lower(cols[j])
    ensures FindCol(cols, candidates).Some? ==>
              exists i :: 0 <= i < |cols| && cols[i] == FindCol(cols, candidates).value &&
                forall j :: i < j < |cols| ==> Lower(cols[j]) != Lower(FindCol(cols, candidates).value)
  {
    FirstInNone(LowerMap(cols), candidates);
    forall k | 0 <= k < |candidates|
      ensures Lower(candidates[k]) in LowerMap(cols) <==> exists j :: 0 <= j < |cols| && Lower(candidates[k]) == Lower(cols[j])
    {
      InLowerMap(cols, candidates[k]);
    }
    if FindCol(cols, candidates).Some? {
      var k := FirstInAt(LowerMap(cols), candidates);
      var key := Lower(candidates[k]);
      var i := LastLowerIndex(cols, key).value;
      assert cols[i] == FindCol(cols, candidates).value;
      assert Lower(cols[i]) == key;
    }
  }

  // ---------------------------------------------------------------------------
  // pick_rr_from_ibge
  // ---------------------------------------------------------------------------

  /** A column of the IBGE table; `cells` hold each value as `astype(str)` renders
      it, and `isObject` is whether pandas stores the column with dtype `object`. */
  datatype Column = Column(name: string, isObject: bool, cells: seq<string>)
  datatype Table = Table(columns: seq<Column>, rows: nat)

  ghost predicate WellFormed(t: Table)
  {
    forall k :: 0 <= k < |t.columns| ==> |t.columns[k].cells| == t.rows
  }

  function Names(cols: seq<Column>): (r: seq<string>)
    ensures |r| == |cols| && forall k :: 0 <= k < |cols| ==> r[k] == cols[k].name
  {
    seq(|cols|, k requires 0 <= k < |cols| => cols[k].name)
  }

  /** `ibge[name]`: the first column with exactly this name. */
  function ColumnNamed(cols: seq<Column>, name: string): (r: Option<Column>)
    ensures r.Some? ==> r.value in cols && r.value.name == name
    ensures r.None? ==> forall k :: 0 <= k < |cols| ==> cols[k].name != name
  {
    if cols == [] then None
    else if cols[0].name == name then Some(cols[0])
    else ColumnNamed(cols[1..], name)
  }

  /** Row positions where the mask holds, ascending: `ibge[m]`. */
  function Select(cells: seq<string>, p: string -> bool): (r: seq<nat>)
    ensures forall a :: 0 <= a < |r| ==> r[a] < |cells|
    ensures forall i: nat :: i in r <==> i < |cells| && p(cells[i])
    ensures forall a, b :: 0 <= a < b < |r| ==> r[a] < r[b]
  {
    if cells == [] then []
    else
      var init := cells[..|cells| - 1];
      var rest := Select(init, p);
      assert forall i: nat :: i < |init| ==> init[i] == cells[i];
      rest + if p(cells[|cells| - 1]) then [|cells| - 1] else []
  }

  predicate IsRR(v: string) { Strip(Upper(v)) == "RR" }
  predicate IsRoraima(v: string) { Strip(Lower(v)) == "roraima" }
  predicate MentionsRoraima(v: string) { Contains(Lower(v), "roraima") }

  /** Rows matched by a criterion on the column `find_col` resolves, or none when
      no candidate column exists. */
  function CandidateRows(t: Table, candidates: seq<string>, p: string -> bool): seq<nat>
  {
    match FindCol(Names(t.columns), candidates)
    case None => []
    case Some(name) =>
      match ColumnNamed(t.columns, name)
      case None => []
      case Some(c) => Select(c.cells, p)
  }

  /** Stage 1: the state abbreviation, trimmed and upper-cased, is "RR". */
  function SiglaRows(t: Table): seq<nat> { CandidateRows(t, SiglaCandidates, IsRR) }

  /** Stage 2: the state name, trimmed and lower-cased, is "roraima". */
  function NameRows(t: Table): seq<nat> { CandidateRows(t, NameCandidates, IsRoraima) }

  /** Rows of a text column that mention "roraima" in any letter case. */
  function MentionRows(c: Column): seq<nat> { Select(c.cells, MentionsRoraima) }

  /** The rows of the first `object` column, in column order, with a cell
      mentioning "roraima", or None when there is no such column. */
  function FirstMention(cols: seq<Column>): Option<seq<nat>>
  {
    if cols == [] then None
    else if cols[0].isObject && MentionRows(cols[0]) != [] then Some(MentionRows(cols[0]))
    else FirstMention(cols[1..])
  }

  /** The fallback loop of `pick_rr_from_ibge`: the first `object` column, in
      column order, with a cell mentioning "roraima", and its matching rows. */
  method FirstMentioning(cols: seq<Column>) returns (r: Option<seq<nat>>)
    ensures r == FirstMention(cols)
    ensures r.None? <==> forall k :: 0 <= k < |cols| && cols[k].isObject ==> MentionRows(cols[k]) == []
    ensures r.Some? ==> exists k :: 0 <= k < |cols| && cols[k].isObject && r.value == MentionRows(cols[k]) != [] &&
                          forall k' :: 0 <= k' < k && cols[k'].isObject ==> MentionRows(cols[k']) == []
  {
    for k := 0 to |cols|
      invariant forall k' :: 0 <= k' < k && cols[k'].isObject ==> MentionRows(cols[k']) == []
      invariant FirstMention(cols[k..]) == FirstMention(cols)
    {
      assert cols[k..][1..] == cols[k + 1..];
      if cols[k].isObject {
        var rr := Select(cols[k].cells, MentionsRoraima);
        if rr != [] {
          return Some(rr);
        }
      }
    }
    assert cols[|cols|..] == [];
    return None;
  }

  /** The cascade of `pick_rr_from_ibge`: abbreviation, then name, then the first
      text column mentioning "roraima". */
  function Cascade(t: Table): Option<seq<nat>>
  {
    if SiglaRows(t) != [] then Some(SiglaRows(t))
    else if NameRows(t) != [] then Some(NameRows(t))
    else FirstMention(t.columns)
  }

  /** `pick_rr_from_ibge`: the rows of the first non-empty stage of the cascade
      (abbreviation, then name, then any text column mentioning "roraima"), or None
      when all three stages select nothing. */
  method PickRoraima(t: Table) returns (r: Option<seq<nat>>)
    requires WellFormed(t)
    ensures r == Cascade(t)
    ensures r.Some? ==> r.value != [] && forall i :: i in r.value ==> i < t.rows
    ensures SiglaRows(t) != [] ==> r == Some(SiglaRows(t))
    ensures SiglaRows(t) == [] && NameRows(t) != [] ==> r == Some(NameRows(t))
    ensures SiglaRows(t) == [] && NameRows(t) == [] ==>
      (r.None? <==> forall k :: 0 <= k < |t.columns| && t.columns[k].isObject ==> MentionRows(t.columns[k]) == [])
    ensures SiglaRows(t) == [] && NameRows(t) == [] && r.Some? ==>
      exists k :: 0 <= k < |t.columns| && t.columns[k].isObject && r.value == MentionRows(t.columns[k]) &&
        forall k' :: 0 <= k' < k && t.columns[k'].isObject ==> MentionRows(t.columns[k']) == []
  {
    var sigla := SiglaRows(t);
    if sigla != [] {
      CandidateRowsBounded(t, SiglaCandidates, IsRR);
      return Some(sigla);
    }
    var nome := NameRows(t);
    if nome != [] {
      CandidateRowsBounded(t, NameCandidates, IsRoraima);
      return Some(nome);
    }
    r := FirstMentioning(t.columns);
  }

  lemma CandidateRowsBounded(t: Table, candidates: seq<string>, p: string -> bool)
    requires WellFormed(t)
    ensures forall i :: i in CandidateRows(t, candidates, p) ==> i < t.rows
  {
    match FindCol(Names(t.columns), candidates)
    case None =>
    case Some(name) =>
      match ColumnNamed(t.columns, name)
      case None =>
      case Some(c) =>
        var k :| 0 <= k < |t.columns| && t.columns[k] == c;
  }

  // ---------------------------------------------------------------------------
  // Shapefile priority
  // ---------------------------------------------------------------------------

  predicate HasUF(file: string) { Contains(Upper(file), "UF") }

  /** The sort key `("UF" not in NAME, NAME)` compared as a tuple: files whose
      upper-cased name mentions "UF" first, then by upper-cased name. */
  predicate PriorityLe(a: string, b: string)
  {
    if HasUF(a) != HasUF(b) then HasUF(a) else LexLe(Upper(a), Upper(b))
  }

  lemma PriorityLeTotal(a: string, b: string)
    ensures PriorityLe(a, b) || PriorityLe(b, a)
  {
    LexLeTotal(Upper(a), Upper(b));
  }

  lemma PriorityLeTransitive(a: string, b: string, c: string)
    requires PriorityLe(a, b) && PriorityLe(b, c)
    ensures PriorityLe(a, c)
  {
    if HasUF(a) == HasUF(b) && HasUF(b) == HasUF(c) {
      LexLeTransitive(Upper(a), Upper(b), Upper(c));
    }
  }

  /** Position `k` holds the file a stable sort by priority key puts first: it has
      the least key, and no earlier file has a key as small. */
  predicate FirstOfLeastKey(files: seq<string>, k: int)
  {
    0 <= k < |files| &&
    (forall j :: 0 <= j < |files| ==> PriorityLe(files[k], files[j])) &&
    (forall j :: 0 <= j < k ==> !PriorityLe(files[j], files[k]))
  }

  /** `shp_list.sort(key=...)` followed by `shp_list[0]`: the file that a stable sort
      puts first, i.e. the first file, in listing order, of least key. */
  method ChooseShapefile(files: seq<string>) returns (r: Option<string>)
    ensures r.None? <==> files == []
    ensures r.Some? ==> exists k :: 0 <= k < |files| && files[k] == r.value &&
                          (forall j :: 0 <= j < |files| ==> PriorityLe(r.value, files[j])) &&
                          (forall j :: 0 <= j < k ==> !PriorityLe(files[j], r.value))
  {
    if files == [] {
      return None;
    }
    var best := 0;
    LexLeReflexive(Upper(files[0]));
    for i := 1 to |files|
      invariant 0 <= best < i
      invariant forall j :: 0 <= j < i ==> PriorityLe(files[best], files[j])
      invariant forall j :: 0 <= j < best ==> !PriorityLe(files[j], files[best])
    {
      if !PriorityLe(files[best], files[i]) {
        PriorityLeTotal(files[best], files[i]);
        forall j | 0 <= j < i
          ensures PriorityLe(files[i], files[j])
        {
          PriorityLeTransitive(files[i], files[best], files[j]);
        }
        forall j | 0 <= j < i
          ensures !PriorityLe(files[j], files[i])
        {
          if PriorityLe(files[j], files[i]) {
            PriorityLeTransitive(files[j], files[i], files[best]);
            if j >= best {
              PriorityLeTransitive(files[best], files[j], files[i]);
            }
          }
        }
        best := i;
      }
      PriorityLeTotal(files[best], files[i]);
    }
    return Some(files[best]);
  }

  // ---------------------------------------------------------------------------
  // main: which conditions stop the run
  // ---------------------------------------------------------------------------

  /** What the script hands to the geometry steps: the chosen shapefile and the
      Roraima rows to dissolve into the area of interest. */
  datatype Aoi = Aoi(shapefile: string, rows: seq<nat>)

  /** The decisions of `main` (lines 86-103). `topLevel` and `nested` are the
      `.shp` files found directly in, and anywhere under, the IBGE folder; `load`
      stands for reading a shapefile. */
  method PrepareAoi(roadsExist: bool, ibgeDirExists: bool, topLevel: seq<string>, nested: seq<string>,
                    load: string -> Table) returns (r: Result<Aoi>)
    requires forall f :: WellFormed(load(f))
    ensures !roadsExist || !ibgeDirExists || (topLevel == [] && nested == []) ==> r.Err?
    ensures r.Ok? ==> r.value.rows != [] &&
                      r.value.shapefile in (if topLevel != [] then topLevel else nested)
    ensures r.Ok? ==> forall f :: f in (if topLevel != [] then topLevel else nested) ==>
                        PriorityLe(r.value.shapefile, f)
    ensures r.Ok? ==> Some(r.value.rows) == Cascade(load(r.value.shapefile))
    ensures var files := if topLevel != [] then topLevel else nested;
            roadsExist && ibgeDirExists && files != [] ==>
              exists k :: FirstOfLeastKey(files, k) &&
                (r.Err? <==> Cascade(load(files[k])).None?) &&
                (r.Ok? ==> r.value.shapefile == files[k])
    ensures roadsExist && ibgeDirExists && (topLevel != [] || nested != []) && r.Err? ==>
              exists f :: f in (if topLevel != [] then topLevel else nested) &&
                (forall g :: g in (if topLevel != [] then topLevel else nested) ==> PriorityLe(f, g)) &&
                Cascade(load(f)).None?
  {
    if !roadsExist {
      return Err("roads OSM not found");
    }
    if !ibgeDirExists {
      return Err("IBGE folder does not exist");
    }
    var files := if topLevel != [] then topLevel else nested;
    var chosen := ChooseShapefile(files);
    if chosen.None? {
      return Err("no .shp found in the IBGE folder");
    }
    var picked := PickRoraima(load(chosen.value));
    if picked.None? {
      return Err("Roraima not found in the IBGE shapefile");
    }
    return Ok(Aoi(chosen.value, picked.value));
  }
}
