/** `divide_columns` (src/data/data_cleaning.py:77-88): splits the column
    labels into numerical and categorical features by dtype. It reads only
    the labels and dtypes of the frame, so it is modelled on the schema. */
module ColumnClassification {
  import opened Cells
  import opened Frame

  function Labels(schema: seq<Field>): seq<string> {
    seq(|schema|, i requires 0 <= i < |schema| => schema[i].name)
  }

  predicate DistinctLabels(schema: seq<Field>) {
    forall i, j :: 0 <= i < j < |schema| ==> schema[i].name != schema[j].name
  }

  /** The schema of a frame shows its labels, and they are distinct iff the
      frame's are. */
  lemma SchemaLabels(cols: seq<Column>)
    ensures Labels(Schema(cols)) == Names(cols)
    ensures DistinctLabels(Schema(cols)) <==> DistinctNames(cols)
  {
    assert forall i :: 0 <= i < |cols| ==> Schema(cols)[i].name == cols[i].name;
  }

  /** The labels of the columns whose dtype is `d`, in frame order. */
  function LabelsOf(schema: seq<Field>, d: DType): seq<string>
    decreases |schema|
  {
    if schema == [] then []
    else (if schema[0].dtype == d then [schema[0].name] else []) + LabelsOf(schema[1..], d)
  }

  /** A label is listed iff some column carries it with dtype `d`. */
  lemma {:induction false} LabelsOfMembers(schema: seq<Field>, d: DType)
    decreases |schema|
    ensures forall x :: x in LabelsOf(schema, d) <==> exists i :: 0 <= i < |schema| && schema[i] == Field(x, d)
  {
    if schema != [] {
      LabelsOfMembers(schema[1..], d);
      forall x, i | 1 <= i < |schema| && schema[i] == Field(x, d)
        ensures schema[1..][i - 1] == Field(x, d) {
      }
    }
  }

  /** The comprehension of line 83: the labels of `names` that are not in
      `excluded`, in order. */
  function Without(names: seq<string>, excluded: seq<string>): (r: seq<string>)
    decreases |names|
    ensures forall x :: x in r <==> x in names && x !in excluded
  {
    if names == [] then []
    else
      assert names == [names[0]] + names[1..];
      (if names[0] in excluded then [] else [names[0]]) + Without(names[1..], excluded)
  }

  /** `divide_columns(data)`: line 82 keeps the labels whose dtype is not
      object; line 83 keeps the labels not kept by line 82. With a repeated
      label `data[feature]` is a frame, `.dtype` raises, and the function
      returns two empty lists (line 88). */
  function DivideColumns(schema: seq<Field>): (r: (seq<string>, seq<string>))
    ensures forall x :: !(x in r.0 && x in r.1)
    ensures DistinctLabels(schema) ==> forall x :: x in Labels(schema) <==> x in r.0 || x in r.1
    ensures !DistinctLabels(schema) ==> r.0 == [] && r.1 == []
  {
    if !DistinctLabels(schema) then ([], [])
    else
      var numerical := LabelsOf(schema, Numeric);
      LabelsOfMembers(schema, Numeric);
      assert forall x :: x in numerical ==> x in Labels(schema) by {
        forall x | x in numerical ensures x in Labels(schema) {
          var i :| 0 <= i < |schema| && schema[i] == Field(x, Numeric);
          assert Labels(schema)[i] == x;
        }
      }
      (numerical, Without(Labels(schema), numerical))
  }

  /** Line 83 selects by membership; when the excluded labels are exactly
      those of numeric dtype, it selects the object-dtype labels in order. */
  lemma {:induction false} WithoutNumeric(schema: seq<Field>, excluded: seq<string>)
    decreases |schema|
    requires forall i :: 0 <= i < |schema| ==> (schema[i].name in excluded <==> schema[i].dtype == Numeric)
    ensures Without(Labels(schema), excluded) == LabelsOf(schema, Object)
  {
    if schema != [] {
      assert Labels(schema)[1..] == Labels(schema[1..]);
      WithoutNumeric(schema[1..], excluded);
    }
  }

  /** With distinct labels the two lists are the labels of numeric and of
      object dtype, each in frame order: line 83 is the complement of line 82. */
  lemma DivideColumnsByDType(schema: seq<Field>)
    requires DistinctLabels(schema)
    ensures DivideColumns(schema) == (LabelsOf(schema, Numeric), LabelsOf(schema, Object))
  {
    var numerical := LabelsOf(schema, Numeric);
    LabelsOfMembers(schema, Numeric);
    forall i | 0 <= i < |schema| ensures schema[i].name in numerical <==> schema[i].dtype == Numeric {
      if schema[i].name in numerical {
        var j :| 0 <= j < |schema| && schema[j] == Field(schema[i].name, Numeric);
        assert j == i;
      }
    }
    WithoutNumeric(schema, numerical);
  }

  /** Every label lands in exactly one list, once: together they are a
      permutation of the labels, so the counts logged at line 84 add up. */
  lemma {:induction false} LabelsOfSplit(schema: seq<Field>)
    decreases |schema|
    ensures multiset(LabelsOf(schema, Numeric)) + multiset(LabelsOf(schema, Object)) == multiset(Labels(schema))
  {
    if schema != [] {
      var head, rest := schema[0], schema[1..];
      LabelsOfSplit(rest);
      LabelsCons(schema);
      var mine := multiset{head.name};
      if head.dtype == Numeric {
        assert multiset(LabelsOf(schema, Numeric)) == mine + multiset(LabelsOf(rest, Numeric));
        assert multiset(LabelsOf(schema, Object)) == multiset(LabelsOf(rest, Object));
      } else {
        assert multiset(LabelsOf(schema, Numeric)) == multiset(LabelsOf(rest, Numeric));
        assert multiset(LabelsOf(schema, Object)) == mine + multiset(LabelsOf(rest, Object));
      }
    }
  }

  lemma LabelsCons(schema: seq<Field>)
    requires schema != []
    ensures Labels(schema) == [schema[0].name] + Labels(schema[1..])
    ensures forall d :: LabelsOf(schema, d) ==
                          (if schema[0].dtype == d then [schema[0].name] else []) + LabelsOf(schema[1..], d)
  {
  }

  lemma DivideColumnsPartition(schema: seq<Field>)
    requires DistinctLabels(schema)
    ensures var (numerical, categorical) := DivideColumns(schema);
      && multiset(numerical) + multiset(categorical) == multiset(Labels(schema))
      && |numerical| + |categorical| == |schema|
  {
    DivideColumnsByDType(schema);
    LabelsOfSplit(schema);
    var (numerical, categorical) := DivideColumns(schema);
    assert |multiset(numerical) + multiset(categorical)| == |multiset(Labels(schema))|;
  }

  /** A label is categorical iff its column exists and has object dtype. */
  lemma CategoricalIffObject(cols: seq<Column>, x: string)
    requires DistinctNames(cols)
    ensures x in DivideColumns(Schema(cols)).1 <==> Lookup(cols, x).Some? && Lookup(cols, x).value.dtype == Object
  {
    SchemaLabels(cols);
    DivideColumnsByDType(Schema(cols));
    LabelsOfMembers(Schema(cols), Object);
    var found := Lookup(cols, x);
    if found.Some? {
      LookupDistinct(cols, found.value);
      var k :| 0 <= k < |cols| && cols[k] == found.value;
      assert Schema(cols)[k] == Field(x, found.value.dtype);
      if x in LabelsOf(Schema(cols), Object) {
        var j :| 0 <= j < |cols| && Schema(cols)[j] == Field(x, Object);
        assert cols[j].name == cols[k].name;
      }
    } else {
      assert x !in Labels(Schema(cols));
    }
  }
}
