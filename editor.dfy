/**
 * The `editor` service: the editor's display preferences and its line
 * annotations.
 *
 * The two preferences, show-imports and syntax highlighting, are booleans
 * persisted in local storage under the keys "imports" and "syntax". The
 * annotations stand for the editor lines marked as errors: `highlight` marks a
 * line and sets its tooltip, and `onChange` clears every mark.
 */
module Editor {
  import opened Options
  import opened Storage

  const ImportsKey := "imports"
  const SyntaxKey := "syntax"

  class EditorContext {
    var imports: bool
    var syntax: bool
    /** The marked lines: line number (as the text the matcher found) to
        tooltip message. */
    var errors: map<string, string>
    const storage: KeyValueStore

    /** Each preference starts as `storage.get(key) === 'true'`. */
    constructor (storage: KeyValueStore)
      ensures this.storage == storage
      ensures imports == ReadFlag(storage.Get(ImportsKey))
      ensures syntax == ReadFlag(storage.Get(SyntaxKey))
      ensures errors == map[]
    {
      this.storage := storage;
      imports := ReadFlag(storage.Get(ImportsKey));
      syntax := ReadFlag(storage.Get(SyntaxKey));
      errors := map[];
    }

    /** `toggleImports`: flip the preference and persist the new value. */
    method ToggleImports()
      modifies this`imports, storage
      ensures imports == !old(imports)
      ensures syntax == old(syntax) && errors == old(errors)
      ensures storage.items ==
        if storage.available then old(storage.items)[ImportsKey := BoolText(imports)]
        else old(storage.items)
    {
      imports := !imports;
      storage.Set(ImportsKey, BoolText(imports));
    }

    /** `toggleSyntax`: flip the preference and persist the new value (the
        repaint that follows is not part of this model). */
    method ToggleSyntax()
      modifies this`syntax, storage
      ensures syntax == !old(syntax)
      ensures imports == old(imports) && errors == old(errors)
      ensures storage.items ==
        if storage.available then old(storage.items)[SyntaxKey := BoolText(syntax)]
        else old(storage.items)
    {
      syntax := !syntax;
      storage.Set(SyntaxKey, BoolText(syntax));
    }

    /** `highlight(line, message)`: mark the line and set its tooltip. Marking
        a line again replaces its tooltip. */
    method Highlight(line: string, message: string)
      modifies this`errors
      ensures errors == old(errors)[line := message]
    {
      errors := errors[line := message];
    }

    /** `onChange`: clear every mark and tooltip. */
    method OnChange()
      modifies this`errors
      ensures errors == map[]
    {
      errors := map[];
    }
  }

  /** Toggling a preference twice restores it, and what storage then holds
      reads back as the restored value. */
  method ToggleTwice(e: EditorContext)
    modifies e, e.storage
    ensures e.imports == old(e.imports) && e.syntax == old(e.syntax)
    ensures e.storage.available ==> ReadFlag(e.storage.Get(ImportsKey)) == e.imports
    ensures e.storage.available ==> ReadFlag(e.storage.Get(SyntaxKey)) == e.syntax
    ensures e.errors == old(e.errors)
    ensures forall k :: k != ImportsKey && k != SyntaxKey ==> e.storage.Get(k) == old(e.storage.Get(k))
  {
    e.ToggleImports();
    e.ToggleImports();
    e.ToggleSyntax();
    e.ToggleSyntax();
    FlagRoundTrip(e.imports);
    FlagRoundTrip(e.syntax);
  }
}
