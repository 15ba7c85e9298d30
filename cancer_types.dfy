/** The table of cancer types (analysis/cancer_dict.py, lines 1-35): TCGA
    abbreviations and their full names, and the lookup that turns either
    into the abbreviation. */
module CancerTypes {
  import opened Wrappers
  import opened Dicts

  /** `cancer_types_dict` as (abbreviation, name) pairs in its order. */
  const Table: seq<(string, string)> := [
    ("LAML", "Acute Myeloid Leukemia"),
    ("ACC", "Adrenocortical carcinoma"),
    ("BLCA", "Bladder Urothelial Carcinoma"),
    ("LGG", "Brain Lower Grade Glioma"),
    ("BRCA", "Breast invasive carcinoma"),
    ("CESC", "Cervical squamous cell carcinoma and endocervical adenocarcinoma"),
    ("CHOL", "Cholangiocarcinoma"),
    ("COAD", "Colon adenocarcinoma"),
    ("ESCA", "Esophageal carcinoma"),
    ("GBM", "Glioblastoma multiforme"),
    ("HNSC", "Head and Neck squamous cell carcinoma"),
    ("KICH", "Kidney Chromophobe"),
    ("KIRC", "Kidney renal clear cell carcinoma"),
    ("KIRP", "Kidney renal papillary cell carcinoma"),
    ("LIHC", "Liver hepatocellular carcinoma"),
    ("LUAD", "Lung adenocarcinoma"),
    ("LUSC", "Lung squamous cell carcinoma"),
    ("DLBC", "Lymphoid Neoplasm Diffuse Large B-cell Lymphoma"),
    ("MESO", "Mesothelioma"),
    ("OV", "Ovarian serous cystadenocarcinoma"),
    ("PAAD", "Pancreatic adenocarcinoma"),
    ("PCPG", "Pheochromocytoma and Paraganglioma"),
    ("PRAD", "Prostate adenocarcinoma"),
    ("READ", "Rectum adenocarcinoma"),
    ("SARC", "Sarcoma"),
    ("SKCM", "Skin Cutaneous Melanoma"),
    ("STAD", "Stomach adenocarcinoma"),
    ("TGCT", "Testicular Germ Cell Tumors"),
    ("THYM", "Thymoma"),
    ("THCA", "Thyroid carcinoma"),
    ("UCS", "Uterine Carcinosarcoma"),
    ("UCEC", "Uterine Corpus Endometrial Carcinoma"),
    ("UVM", "Uveal Melanoma")
  ]

  /** The keys of the dictionary, in order. */
  function Abbreviations(): (r: seq<string>)
    ensures |r| == |Table| && forall i :: 0 <= i < |Table| ==> r[i] == Table[i].0
  {
    seq(|Table|, i requires 0 <= i < |Table| => Table[i].0)
  }

  /** The values of the dictionary, in order. */
  function Names(): (r: seq<string>)
    ensures |r| == |Table| && forall i :: 0 <= i < |Table| ==> r[i] == Table[i].1
  {
    seq(|Table|, i requires 0 <= i < |Table| => Table[i].1)
  }

  /** `{value: key for key, value in pairs}[v]`: the key of the last pair
      whose value is `v` (later pairs overwrite earlier ones), or None where
      the lookup raises KeyError. */
  function KeyOf(pairs: seq<(string, string)>, v: string): Option<string>
    decreases |pairs|
  {
    if pairs == [] then None
    else if pairs[|pairs| - 1].1 == v then Some(pairs[|pairs| - 1].0)
    else KeyOf(pairs[..|pairs| - 1], v)
  }

  /** The abbreviation the `if`/`elif` chain selects: a key is kept, a value
      is mapped back to its key; None when neither branch applies. */
  function Abbreviation(input: string): Option<string> {
    if input in Abbreviations() then Some(input)
    else if input in Names() then KeyOf(Table, input)
    else None
  }

  /** The table has 33 entries, and no name is also an abbreviation:
      abbreviations have at most four characters, names more. */
  lemma TableShape()
    ensures |Table| == 33
    ensures forall i :: 0 <= i < |Table| ==> |Table[i].0| <= 4 < |Table[i].1|
  {
  }

  /** Inverting finds a pair with the value, and no later pair has it. */
  lemma {:induction false} KeyOfFound(pairs: seq<(string, string)>, v: string)
    ensures KeyOf(pairs, v).Some? <==> exists i :: 0 <= i < |pairs| && pairs[i].1 == v
    ensures KeyOf(pairs, v).Some? ==>
              exists i :: 0 <= i < |pairs| && pairs[i] == (KeyOf(pairs, v).value, v) &&
                          forall j :: i < j < |pairs| ==> pairs[j].1 != v
    decreases |pairs|
  {
    if pairs != [] {
      var n := |pairs| - 1;
      KeyOfFound(pairs[..n], v);
      if pairs[n].1 != v {
        if exists i :: 0 <= i < |pairs| && pairs[i].1 == v {
          var i :| 0 <= i < |pairs| && pairs[i].1 == v;
          assert pairs[..n][i] == pairs[i];
        }
        if KeyOf(pairs, v).Some? {
          var i :| 0 <= i < n && pairs[..n][i] == (KeyOf(pairs, v).value, v) &&
                   forall j :: i < j < n ==> pairs[..n][j].1 != v;
          assert pairs[i] == pairs[..n][i];
          forall j | i < j < |pairs| ensures pairs[j].1 != v {
            if j < n { assert pairs[..n][j] == pairs[j]; }
          }
        }
      }
    }
  }

  /** A name maps back to an abbreviation paired with it: the last one, as
      the inverted dictionary keeps the last pair for each name. */
  lemma NameToAbbreviation(v: string)
    requires v in Names()
    ensures Abbreviation(v).Some?
    ensures exists i :: 0 <= i < |Table| && Table[i] == (Abbreviation(v).value, v) &&
                        forall j :: i < j < |Table| ==> Table[j].1 != v
  {
    TableShape();
    var i :| 0 <= i < |Table| && Names()[i] == v;
    assert v !in Abbreviations();
    KeyOfFound(Table, v);
  }

  /** The lookup succeeds exactly for a key or a value, keeps a key as it
      is, and always yields a key. */
  lemma AbbreviationSpec(input: string)
    ensures Abbreviation(input).Some? <==> input in Abbreviations() || input in Names()
    ensures input in Abbreviations() ==> Abbreviation(input) == Some(input)
    ensures Abbreviation(input).Some? ==> Abbreviation(input).value in Abbreviations()
  {
    KeyOfFound(Table, input);
    if input !in Abbreviations() && input in Names() {
      var i :| 0 <= i < |Table| && Table[i] == (KeyOf(Table, input).value, input);
      assert Abbreviations()[i] == Table[i].0;
    }
    if input !in Abbreviations() && input in Names() {
      var j :| 0 <= j < |Table| && Names()[j] == input;
    }
  }
}
