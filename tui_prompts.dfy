/** The licence prompt: the table of Hugging Face licences offered for completion,
    and the check that the typed text is one of their ids. */
module TuiPrompts {

  import opened Wrappers

  /** A row of `_HF_LICENCES`: the licence id and its description. */
  datatype Licence = Licence(id: string, description: string)

  /** `_HF_LICENCES`, in table order, written in six parts of twelve rows. */
  const Licences: seq<Licence> :=
    LicencesA + LicencesB + LicencesC + LicencesD + LicencesE + LicencesF

  const LicencesA: seq<Licence> := [
    Licence("apache-2.0", "Apache license 2.0"),
    Licence("mit", "MIT"),
    Licence("openrail", "OpenRAIL license family"),
    Licence("bigscience-openrail-m", "BigScience OpenRAIL-M"),
    Licence("creativeml-openrail-m", "CreativeML OpenRAIL-M"),
    Licence("bigscience-bloom-rail-1.0", "BigScience BLOOM RAIL 1.0"),
    Licence("bigcode-openrail-m", "BigCode Open RAIL-M v1"),
    Licence("afl-3.0", "Academic Free License v3.0"),
    Licence("artistic-2.0", "Artistic license 2.0"),
    Licence("bsl-1.0", "Boost Software License 1.0"),
    Licence("bsd", "BSD license family"),
    Licence("bsd-2-clause", "BSD 2-clause \"Simplified\" license")
  ]

  const LicencesB: seq<Licence> := [
    Licence("bsd-3-clause", "BSD 3-clause \"New\" or \"Revised\" license"),
    Licence("bsd-3-clause-clear", "BSD 3-clause Clear license"),
    Licence("c-uda", "Computational Use of Data Agreement"),
    Licence("cc", "Creative Commons license family"),
    Licence("cc0-1.0", "Creative Commons Zero v1.0 Universal"),
    Licence("cc-by-2.0", "Creative Commons Attribution 2.0"),
    Licence("cc-by-2.5", "Creative Commons Attribution 2.5"),
    Licence("cc-by-3.0", "Creative Commons Attribution 3.0"),
    Licence("cc-by-4.0", "Creative Commons Attribution 4.0"),
    Licence("cc-by-sa-3.0", "Creative Commons Attribution Share Alike 3.0"),
    Licence("cc-by-sa-4.0", "Creative Commons Attribution Share Alike 4.0"),
    Licence("cc-by-nc-2.0", "Creative Commons Attribution Non Commercial 2.0")
  ]

  const LicencesC: seq<Licence> := [
    Licence("cc-by-nc-3.0", "Creative Commons Attribution Non Commercial 3.0"),
    Licence("cc-by-nc-4.0", "Creative Commons Attribution Non Commercial 4.0"),
    Licence("cc-by-nd-4.0", "Creative Commons Attribution No Derivatives 4.0"),
    Licence("cc-by-nc-nd-3.0", "Creative Commons Attribution Non Commercial No Derivatives 3.0"),
    Licence("cc-by-nc-nd-4.0", "Creative Commons Attribution Non Commercial No Derivatives 4.0"),
    Licence("cc-by-nc-sa-2.0", "Creative Commons Attribution Non Commercial Share Alike 2.0"),
    Licence("cc-by-nc-sa-3.0", "Creative Commons Attribution Non Commercial Share Alike 3.0"),
    Licence("cc-by-nc-sa-4.0", "Creative Commons Attribution Non Commercial Share Alike 4.0"),
    Licence("cdla-sharing-1.0", "Community Data License Agreement – Sharing, Version 1.0"),
    Licence("cdla-permissive-1.0", "Community Data License Agreement – Permissive, Version 1.0"),
    Licence("cdla-permissive-2.0", "Community Data License Agreement – Permissive, Version 2.0"),
    Licence("wtfpl", "Do What The F*ck You Want To Public License")
  ]

  const LicencesD: seq<Licence> := [
    Licence("ecl-2.0", "Educational Community License v2.0"),
    Licence("epl-1.0", "Eclipse Public License 1.0"),
    Licence("epl-2.0", "Eclipse Public License 2.0"),
    Licence("etalab-2.0", "Etalab Open License 2.0"),
    Licence("eupl-1.1", "European Union Public License 1.1"),
    Licence("agpl-3.0", "GNU Affero General Public License v3.0"),
    Licence("gfdl", "GNU Free Documentation License family"),
    Licence("gpl", "GNU General Public License family"),
    Licence("gpl-2.0", "GNU General Public License v2.0"),
    Licence("gpl-3.0", "GNU General Public License v3.0"),
    Licence("lgpl", "GNU Lesser General Public License family"),
    Licence("lgpl-2.1", "GNU Lesser General Public License v2.1")
  ]

  const LicencesE: seq<Licence> := [
    Licence("lgpl-3.0", "GNU Lesser General Public License v3.0"),
    Licence("isc", "ISC"),
    Licence("lppl-1.3c", "LaTeX Project Public License v1.3c"),
    Licence("ms-pl", "Microsoft Public License"),
    Licence("apple-ascl", "Apple Sample Code license"),
    Licence("mpl-2.0", "Mozilla Public License 2.0"),
    Licence("odc-by", "Open Data Commons License Attribution family"),
    Licence("odbl", "Open Database License family"),
    Licence("openrail++", "Open Rail++-M License"),
    Licence("osl-3.0", "Open Software License 3.0"),
    Licence("postgresql", "PostgreSQL License"),
    Licence("ofl-1.1", "SIL Open Font License 1.1")
  ]

  const LicencesF: seq<Licence> := [
    Licence("ncsa", "University of Illinois/NCSA Open Source License"),
    Licence("unlicense", "The Unlicense"),
    Licence("zlib", "zLib License"),
    Licence("pddl", "Open Data Commons Public Domain Dedication and License"),
    Licence("lgpl-lr", "Lesser General Public License For Linguistic Resources"),
    Licence("deepfloyd-if-license", "DeepFloyd IF Research License Agreement"),
    Licence("llama2", "Llama 2 Community License Agreement"),
    Licence("llama3", "Llama 3 Community License Agreement"),
    Licence("llama3.1", "Llama 3.1 Community License Agreement"),
    Licence("gemma", "Gemma Terms of Use"),
    Licence("unknown", "Unknown"),
    Licence("other", "Other")
  ]

  /** `_VALID_LICENCES`: the ids, in table order. */
  function Ids(table: seq<Licence>): (ids: seq<string>)
    ensures |ids| == |table|
    ensures forall i :: 0 <= i < |table| ==> ids[i] == table[i].id
  {
    if table == [] then [] else [table[0].id] + Ids(table[1..])
  }

  /** `_fn_validate`: the text is accepted, as it is, exactly when it is the id of
      a row; otherwise the error puts the cursor after the text. */
  function ValidateLicence(text: string): (r: Result<bool>)
    ensures r.Ok? <==> exists i :: 0 <= i < |Licences| && Licences[i].id == text
    ensures r.Ok? ==> r.value
    ensures r.Err? ==> r.error == ValidationError(InvalidLicence(text, |text|))
  {
    var ids := Ids(Licences);
    assert text in ids <==> exists i :: 0 <= i < |Licences| && Licences[i].id == text by {
      if text in ids {
        var i :| 0 <= i < |ids| && ids[i] == text;
        assert Licences[i].id == text;
      }
    }
    if text in ids then Ok(true) else Err(ValidationError(InvalidLicence(text, |text|)))
  }

  /** A row-by-row search for an id from row `i` on. */
  function HasId(table: seq<Licence>, x: string, i: nat): bool
    decreases |table| - i
  {
    i < |table| && (table[i].id == x || HasId(table, x, i + 1))
  }

  /** The search finds exactly the ids of the rows from `i` on. */
  lemma {:induction false} HasIdIff(table: seq<Licence>, x: string, i: nat)
    ensures HasId(table, x, i) <==> exists j :: i <= j < |table| && table[j].id == x
    decreases |table| - i
  {
    if i < |table| {
      HasIdIff(table, x, i + 1);
      if exists j :: i <= j < |table| && table[j].id == x {
        var j :| i <= j < |table| && table[j].id == x;
        assert j == i || (i + 1 <= j < |table| && table[j].id == x);
      }
    }
  }

  /** An id of a table made of two parts is an id of one of them. */
  lemma IdOfParts(a: seq<Licence>, b: seq<Licence>, x: string)
    ensures (exists i :: 0 <= i < |a + b| && (a + b)[i].id == x) <==>
      HasId(a, x, 0) || HasId(b, x, 0)
  {
    HasIdIff(a, x, 0);
    HasIdIff(b, x, 0);
    if exists i :: 0 <= i < |a + b| && (a + b)[i].id == x {
      var i :| 0 <= i < |a + b| && (a + b)[i].id == x;
      if i >= |a| {
        assert b[i - |a|].id == x;
      }
    }
    if HasId(a, x, 0) {
      var j :| 0 <= j < |a| && a[j].id == x;
      assert (a + b)[j] == a[j];
    }
    if HasId(b, x, 0) {
      var j :| 0 <= j < |b| && b[j].id == x;
      assert (a + b)[|a| + j] == b[j];
    }
  }

  /** An id of a table made of six parts is an id of one of them. */
  lemma IdOfSixParts(a: seq<Licence>, b: seq<Licence>, c: seq<Licence>, d: seq<Licence>, e: seq<Licence>, f: seq<Licence>, x: string)
    ensures HasId(a + b + c + d + e + f, x, 0) <==>
        HasId(a, x, 0) || HasId(b, x, 0) || HasId(c, x, 0) || HasId(d, x, 0) || HasId(e, x, 0) || HasId(f, x, 0)
  {
    HasIdAppend(a, b, x);
    HasIdAppend(a + b, c, x);
    HasIdAppend(a + b + c, d, x);
    HasIdAppend(a + b + c + d, e, x);
    HasIdAppend(a + b + c + d + e, f, x);
  }

  lemma HasIdAppend(a: seq<Licence>, b: seq<Licence>, x: string)
    ensures HasId(a + b, x, 0) <==> HasId(a, x, 0) || HasId(b, x, 0)
  {
    IdOfParts(a, b, x);
    HasIdIff(a + b, x, 0);
  }

  /** The valid ids are those found in one of the six parts. */
  lemma IsIdByParts(x: string)
    ensures ValidateLicence(x).Ok? <==>
      HasId(LicencesA, x, 0) || HasId(LicencesB, x, 0) || HasId(LicencesC, x, 0)
      || HasId(LicencesD, x, 0) || HasId(LicencesE, x, 0) || HasId(LicencesF, x, 0)
  {
    HasIdIff(Licences, x, 0);
    IdOfSixParts(LicencesA, LicencesB, LicencesC, LicencesD, LicencesE, LicencesF, x);
  }

  /** The id `mit` of the second row is accepted. */
  lemma MitAccepted()
    ensures Licences[1] == Licence("mit", "MIT")
    ensures ValidateLicence("mit") == Ok(true)
  {
    assert LicencesA[1] == Licence("mit", "MIT");
    assert Licences[1] == LicencesA[1];
  }

  /** The rejected examples below, the two descriptions and the two padded ids, are
      ids of no part of the table. */
  lemma ExamplesNotInA()
    ensures !HasId(LicencesA, "MIT", 0) && !HasId(LicencesA, "Apache license 2.0", 0)
    ensures !HasId(LicencesA, " mit", 0) && !HasId(LicencesA, "mit ", 0)
  {
  }

  lemma ExamplesNotInB()
    ensures !HasId(LicencesB, "MIT", 0) && !HasId(LicencesB, "Apache license 2.0", 0)
    ensures !HasId(LicencesB, " mit", 0) && !HasId(LicencesB, "mit ", 0)
  {
  }

  lemma ExamplesNotInC()
    ensures !HasId(LicencesC, "MIT", 0) && !HasId(LicencesC, "Apache license 2.0", 0)
    ensures !HasId(LicencesC, " mit", 0) && !HasId(LicencesC, "mit ", 0)
  {
  }

  lemma ExamplesNotInD()
    ensures !HasId(LicencesD, "MIT", 0) && !HasId(LicencesD, "Apache license 2.0", 0)
    ensures !HasId(LicencesD, " mit", 0) && !HasId(LicencesD, "mit ", 0)
  {
  }

  lemma ExamplesNotInE()
    ensures !HasId(LicencesE, "MIT", 0) && !HasId(LicencesE, "Apache license 2.0", 0)
    ensures !HasId(LicencesE, " mit", 0) && !HasId(LicencesE, "mit ", 0)
  {
  }

  lemma ExamplesNotInF()
    ensures !HasId(LicencesF, "MIT", 0) && !HasId(LicencesF, "Apache license 2.0", 0)
    ensures !HasId(LicencesF, " mit", 0) && !HasId(LicencesF, "mit ", 0)
  {
  }

  /** The check is on ids and case-sensitive: the descriptions `MIT` and
      `Apache license 2.0` are rejected, with the cursor after the text. */
  lemma DescriptionsRejected()
    ensures ValidateLicence("MIT") == Err(ValidationError(InvalidLicence("MIT", 3)))
    ensures ValidateLicence("Apache license 2.0").Err?
  {
    ExamplesNotInA(); ExamplesNotInB(); ExamplesNotInC();
    ExamplesNotInD(); ExamplesNotInE(); ExamplesNotInF();
    IsIdByParts("MIT");
    IsIdByParts("Apache license 2.0");
  }

  /** The text is not stripped: padded ids are rejected. */
  lemma PaddedRejected()
    ensures ValidateLicence(" mit") == Err(ValidationError(InvalidLicence(" mit", 4)))
    ensures ValidateLicence("mit ") == Err(ValidationError(InvalidLicence("mit ", 4)))
  {
    ExamplesNotInA(); ExamplesNotInB(); ExamplesNotInC();
    ExamplesNotInD(); ExamplesNotInE(); ExamplesNotInF();
    IsIdByParts(" mit");
    IsIdByParts("mit ");
  }
}
