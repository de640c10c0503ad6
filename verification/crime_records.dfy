/** The crime records the analysis reads, and the cleaning step that drops the
    records filed under district 31 before the combined records are written
    (chicago_crime_analysis.py, `process_crime_files`). */
module CrimeRecords {
  import opened Sequences

  /** The fields of one incident that the analyses read. */
  datatype Record = Record(crimeType: string, description: string, district: int, arrest: bool, year: int)

  /** District 31 is not a Chicago police district; its records are treated
      as mis-keyed district 13 records and dropped. */
  const ExcludedDistrict: int := 31

  const Theft: string := "THEFT"
  const Homicide: string := "HOMICIDE"

  predicate InPoliceDistrict(r: Record) { r.district != ExcludedDistrict }
  predicate IsTheft(r: Record) { r.crimeType == Theft }
  predicate IsHomicide(r: Record) { r.crimeType == Homicide }
  predicate Arrested(r: Record) { r.arrest }
  predicate IsTheftArrest(r: Record) { r.crimeType == Theft && r.arrest }

  function CrimeType(r: Record): string { r.crimeType }
  function Description(r: Record): string { r.description }
  function District(r: Record): int { r.district }
  function DistrictDescription(r: Record): (int, string) { (r.district, r.description) }

  /** `df.loc[df.district != 31]`: no record of district 31 survives, and every
      other record survives as often as it occurred. */
  function DropExcludedDistrict(rs: seq<Record>): (r: seq<Record>)
    ensures forall i :: 0 <= i < |r| ==> r[i].district != ExcludedDistrict
    ensures forall i :: 0 <= i < |rs| && rs[i].district != ExcludedDistrict ==> rs[i] in r
    ensures forall x :: multiset(r)[x] == if x.district != ExcludedDistrict then multiset(rs)[x] else 0
  {
    var r := Where(rs, InPoliceDistrict);
    forall x
      ensures multiset(r)[x] == if x.district != ExcludedDistrict then multiset(rs)[x] else 0
    {
      WhereMultiplicity(rs, InPoliceDistrict, x);
    }
    r
  }

  /** The filter keeps the surviving records in their original relative order:
      it acts on each part of a concatenation separately ... */
  lemma DropExcludedDistrictConcat(a: seq<Record>, b: seq<Record>)
    ensures DropExcludedDistrict(a + b) == DropExcludedDistrict(a) + DropExcludedDistrict(b)
  {
    WhereConcat(a, b, InPoliceDistrict);
  }

  /** ... and keeps or drops a single record according to its district. */
  lemma DropExcludedDistrictSingleton(x: Record)
    ensures DropExcludedDistrict([x]) == if x.district == ExcludedDistrict then [] else [x]
  {
    WhereSingleton(x, InPoliceDistrict);
  }

  /** Filtering again, as the per-district analyses do, changes nothing. */
  lemma DropExcludedDistrictIdempotent(rs: seq<Record>)
    ensures DropExcludedDistrict(DropExcludedDistrict(rs)) == DropExcludedDistrict(rs)
  {
    WhereIdempotent(rs, InPoliceDistrict);
  }

  /** `process_crime_files`: stack the homicide file's records on top of the
      crime file's and drop district 31. Reading and renaming the columns and
      writing the tab-separated file are left to the caller. */
  function ProcessCrimeFiles(homicides: seq<Record>, crimes: seq<Record>): (r: seq<Record>)
    ensures r == DropExcludedDistrict(homicides) + DropExcludedDistrict(crimes)
    ensures forall i :: 0 <= i < |r| ==> r[i].district != ExcludedDistrict
  {
    DropExcludedDistrictConcat(homicides, crimes);
    DropExcludedDistrict(homicides + crimes)
  }
}
