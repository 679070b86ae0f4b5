/**
  What both generators receive from the compiler and from the OpenAPI reader: the additional
  files with their options, and the result of loading a document.
*/
module GeneratorInputs {
  import opened Wrappers
  import opened ConfigOptions

  /** An additional file of the compilation, with the analyzer options attached to it. */
  datatype AdditionalFile = AdditionalFile(path: string, options: AnalyzerOptions)

  /** The `Where(x => x != null)` step, and the `continue` on a null item: the present values in order. */
  function Present(items: seq<Option<AdditionalFile>>): (r: seq<AdditionalFile>)
    ensures |r| <= |items|
  {
    if items == [] then []
    else
      var last := items[|items| - 1];
      Present(items[..|items| - 1]) + (if last.Some? then [last.value] else [])
  }

  /** Exactly the values of the present items are kept. */
  lemma {:induction false} PresentMembers(items: seq<Option<AdditionalFile>>)
    ensures forall x :: x in Present(items) <==> Some(x) in items
    decreases |items|
  {
    if items != [] {
      var n := |items| - 1;
      PresentMembers(items[..n]);
      assert items == items[..n] + [items[n]];
    }
  }

  lemma {:induction false} PresentAppend(a: seq<Option<AdditionalFile>>, b: seq<Option<AdditionalFile>>)
    ensures Present(a + b) == Present(a) + Present(b)
    decreases |b|
  {
    if b == [] {
      assert a + b == a;
    } else {
      var last := b[|b| - 1];
      var front := b[..|b| - 1];
      assert a + b == (a + front) + [last];
      assert (a + b)[..|a + b| - 1] == a + front;
      PresentAppend(a, front);
    }
  }

  /** Dropping the nulls of one more item appends that item's value, if it has one. */
  lemma PresentSnoc(items: seq<Option<AdditionalFile>>, k: nat)
    requires k < |items|
    ensures Present(items[..k + 1]) ==
            Present(items[..k]) + (if items[k].Some? then [items[k].value] else [])
  {
    assert items[..k + 1][..k] == items[..k];
  }

  /** When every item is present, dropping nulls keeps every value, in place. */
  lemma {:induction false} PresentAllSome(items: seq<Option<AdditionalFile>>)
    requires forall i :: 0 <= i < |items| ==> items[i].Some?
    ensures |Present(items)| == |items|
    ensures forall i :: 0 <= i < |items| ==> Present(items)[i] == items[i].value
    decreases |items|
  {
    if items != [] {
      var n := |items| - 1;
      var front := items[..n];
      assert forall i :: 0 <= i < n ==> front[i] == items[i];
      PresentAllSome(front);
      var r := Present(items);
      assert r == Present(front) + [items[n].value];
      forall i | 0 <= i < |items|
        ensures r[i] == items[i].value
      {
        if i < n {
          assert r[i] == Present(front)[i];
        }
      }
    }
  }

  /** `f` applied to every file, in order. */
  function MapFiles<T>(f: AdditionalFile -> T, files: seq<AdditionalFile>): seq<T> {
    if files == [] then []
    else MapFiles(f, files[..|files| - 1]) + [f(files[|files| - 1])]
  }

  lemma {:induction false} MapFilesAt<T>(f: AdditionalFile -> T, files: seq<AdditionalFile>)
    ensures |MapFiles(f, files)| == |files|
    ensures forall i :: 0 <= i < |files| ==> MapFiles(f, files)[i] == f(files[i])
    decreases |files|
  {
    if files != [] {
      MapFilesAt(f, files[..|files| - 1]);
    }
  }

  lemma MapFilesSnoc<T>(f: AdditionalFile -> T, files: seq<AdditionalFile>, file: AdditionalFile)
    ensures MapFiles(f, files + [file]) == MapFiles(f, files) + [f(file)]
  {
    assert (files + [file])[..|files|] == files;
  }

  /**
    The `foreach` that builds the configuration list: skips null items and adds what `build`
    makes of each remaining item, in order. Both copies run this loop with their own `build`.
  */
  method CollectAll<T>(items: seq<Option<AdditionalFile>>, build: AdditionalFile -> T) returns (built: seq<T>)
    ensures built == MapFiles(build, Present(items))
  {
    built := [];
    ghost var kept: seq<AdditionalFile> := [];
    var k := 0;
    while k < |items|
      invariant 0 <= k <= |items|
      invariant kept == Present(items[..k])
      invariant built == MapFiles(build, kept)
    {
      var item := items[k];
      PresentSnoc(items, k);
      if item.Some? {
        MapFilesSnoc(build, kept, item.value);
        built := built + [build(item.value)];
        kept := kept + [item.value];
      }
      k := k + 1;
    }
    assert items[..k] == items;
  }

  /** `f` applied to every element, the resulting sequences concatenated in order. */
  function FlatMap<C, E>(f: C -> seq<E>, xs: seq<C>): seq<E> {
    if xs == [] then []
    else FlatMap(f, xs[..|xs| - 1]) + f(xs[|xs| - 1])
  }

  lemma FlatMapSnoc<C, E>(f: C -> seq<E>, xs: seq<C>, k: nat)
    requires k < |xs|
    ensures FlatMap(f, xs[..k + 1]) == FlatMap(f, xs[..k]) + f(xs[k])
  {
    assert xs[..k + 1][..k] == xs[..k];
  }

  lemma {:induction false} FlatMapAppend<C, E>(f: C -> seq<E>, a: seq<C>, b: seq<C>)
    ensures FlatMap(f, a + b) == FlatMap(f, a) + FlatMap(f, b)
    decreases |b|
  {
    if b == [] {
      assert a + b == a;
    } else {
      var front := b[..|b| - 1];
      assert (a + b)[..|a + b| - 1] == a + front;
      assert (a + b)[|a + b| - 1] == b[|b| - 1];
      FlatMapAppend(f, a, front);
    }
  }

  /** A loaded OpenAPI document; only whether `Components.Schemas` is present matters here. */
  datatype Document = Document(hasSchemas: bool)

  /** What `OpenApiDocument.LoadAsync` hands back: a document or null, and a diagnostic or null with its errors. */
  datatype ReadResult = ReadResult(document: Option<Document>, errors: Option<seq<string>>)

  /** The document is rejected when it is null or the reader reported at least one error. */
  predicate IsInvalid(r: ReadResult) {
    r.document.None? || (r.errors.Some? && |r.errors.value| > 0)
  }

  datatype Load = Loaded(result: ReadResult) | LoadThrew(message: string)
}
