/**
 * The employee store: the in-memory table of records, its persistence under
 * the `employees` key of the browser's storage, and its change listeners.
 */
module Store {
  import opened Wrappers
  import opened Text
  import opened Dates
  import opened Employees
  import Queries

  /** The key the records are persisted under. */
  const StorageKey := "employees"

  /**
   * What the storage holds under the key: nothing (or the empty string), a
   * text that does not parse as records, or parsed records.
   */
  datatype Persisted = Absent | Unparsable | Records(es: seq<Employee>)

  /** Why `add`, `update` or `delete` throws: "Employee not found", or the error object. */
  datatype StoreError = NotFound | Rejected(errors: Errors)

  /** One call of `notifyListeners`: which listeners were called, with which records. */
  datatype Notification = Notification(listeners: set<nat>, records: seq<Employee>)

  /** `loadFromStorage`: the parsed records, or none when there are none or they cannot be read. */
  function Load(p: Persisted): (es: seq<Employee>)
    ensures p.Records? ==> es == p.es
    ensures !p.Records? ==> es == []
  {
    if p.Records? then p.es else []
  }

  /** `findIndex` by id: the first record with that id. */
  function FindIndex(es: seq<Employee>, id: string): (r: Option<nat>)
    ensures r.Some? ==> r.value < |es| && es[r.value].id == id
    ensures r.Some? ==> forall k :: 0 <= k < r.value ==> es[k].id != id
    ensures r.None? <==> forall k :: 0 <= k < |es| ==> es[k].id != id
  {
    if es == [] then None
    else if es[0].id == id then Some(0)
    else match FindIndex(es[1..], id)
      case None => None
      case Some(k) => Some(k + 1)
  }

  /** A record appended under an id nobody has is the one `getById` finds. */
  lemma {:induction false} FindIndexAppended(es: seq<Employee>, e: Employee)
    requires forall k :: 0 <= k < |es| ==> es[k].id != e.id
    ensures FindIndex(es + [e], e.id) == Some(|es|)
  {
    if es != [] {
      assert (es + [e])[1..] == es[1..] + [e];
      FindIndexAppended(es[1..], e);
    }
  }

  /** With unique ids, the first record with an id is the only one. */
  lemma FindIndexUnique(es: seq<Employee>, idx: nat)
    requires UniqueRecords(es) && idx < |es|
    ensures FindIndex(es, es[idx].id) == Some(idx)
  {
  }

  class EmployeeStore {
    /** The records, in insertion order. */
    var employees: seq<Employee>
    /** The subscribed listeners, by handle; a set, so subscribing twice is subscribing once. */
    var listeners: set<nat>
    /** What the storage holds under `StorageKey`. */
    var persisted: Persisted
    /** Every notification so far, oldest first. */
    var notifications: seq<Notification>

    /** The store starts with whatever the storage holds, and no listeners. */
    constructor (stored: Persisted)
      ensures employees == Load(stored)
      ensures listeners == {} && persisted == stored && notifications == []
    {
      employees := Load(stored);
      listeners := {};
      persisted := stored;
      notifications := [];
    }

    /**
     * `saveToStorage`: when the write succeeds, the records are persisted and
     * every listener is called with them; when it throws, the error is
     * swallowed and nothing is persisted or notified.
     */
    method SaveToStorage(writeOk: bool)
      modifies this
      ensures employees == old(employees) && listeners == old(listeners)
      ensures writeOk ==> persisted == Records(employees)
      ensures writeOk ==> notifications == old(notifications) + [Notification(listeners, employees)]
      ensures !writeOk ==> persisted == old(persisted) && notifications == old(notifications)
    {
      if writeOk {
        persisted := Records(employees);
        notifications := notifications + [Notification(listeners, employees)];
      }
    }

    /** `subscribe`: the listener is called on every later successful save. */
    method Subscribe(listener: nat)
      modifies this
      ensures listeners == old(listeners) + {listener}
      ensures employees == old(employees) && persisted == old(persisted) && notifications == old(notifications)
    {
      listeners := listeners + {listener};
    }

    /** The function `subscribe` returns: it removes the listener again. */
    method Unsubscribe(listener: nat)
      modifies this
      ensures listeners == old(listeners) - {listener}
      ensures employees == old(employees) && persisted == old(persisted) && notifications == old(notifications)
    {
      listeners := listeners - {listener};
    }

    /**
     * `validateEmployee` on the current records, with the same-person rule
     * applied to the trimmed names (the corrected rule). On submitted names
     * without surrounding white space it gives what the source's rule gives.
     */
    method ValidateEmployee(d: EmployeeData, excludeId: Option<string>, today: Date) returns (r: Option<Errors>)
      ensures r == Validation(employees, d, excludeId, today)
      ensures r.None? <==> Acceptable(employees, d, excludeId, today, DuplicatePerson(employees, d, excludeId))
      ensures Trim(d.firstName) == d.firstName && Trim(d.lastName) == d.lastName ==>
        r == ValidationAsWritten(employees, d, excludeId, today)
    {
      if Trim(d.firstName) == d.firstName && Trim(d.lastName) == d.lastName {
        AsWrittenAgreesOnTrimmedNames(employees, d, excludeId, today);
      }
      var errors := RunChecks(CheckVerdicts(employees, d, excludeId, today, DuplicatePerson(employees, d, excludeId)));
      r := if errors == NoErrors then None else Some(errors);
      ValidationNoneIffAcceptable(employees, d, excludeId, today, DuplicatePerson(employees, d, excludeId));
    }

    /** `getAll`: a copy of the records (sequences are values, so every copy is independent). */
    method GetAll() returns (r: seq<Employee>)
      ensures r == employees
    {
      r := employees;
    }

    /** `getById`: the first record with the id, or `undefined`. */
    method GetById(id: string) returns (r: Option<Employee>)
      ensures r.Some? ==> r.value in employees && r.value.id == id
      ensures r.Some? ==> FindIndex(employees, id).Some? && r.value == employees[FindIndex(employees, id).value]
      ensures r.None? <==> forall k :: 0 <= k < |employees| ==> employees[k].id != id
    {
      var idx := FindIndex(employees, id);
      r := if idx.Some? then Some(employees[idx.value]) else None;
    }

    /**
     * `add`: validation failure throws the error object and changes nothing;
     * otherwise the trimmed record is appended under the fresh id and saved.
     * Validation uses the corrected same-person rule, which is what keeps the
     * records unique; on names without surrounding white space it is the
     * source's rule.
     * `newId` is what the id generator returns: an id no record has.
     */
    method Add(d: EmployeeData, today: Date, newId: string, writeOk: bool) returns (r: Result<Employee, StoreError>)
      requires forall k :: 0 <= k < |employees| ==> employees[k].id != newId
      modifies this
      ensures r.Failure? <==> Validation(old(employees), d, None, today).Some?
      ensures Trim(d.firstName) == d.firstName && Trim(d.lastName) == d.lastName ==>
        (r.Failure? <==> ValidationAsWritten(old(employees), d, None, today).Some?)
      ensures r.Failure? ==> r.error == Rejected(Validation(old(employees), d, None, today).value)
      ensures r.Failure? ==> employees == old(employees) && persisted == old(persisted)
                             && notifications == old(notifications)
      ensures r.Success? ==> d.dateOfEmployment.Some? && d.dateOfBirth.Some?
                             && r.value == Build(newId, d) && employees == old(employees) + [r.value]
      ensures r.Success? ==> FindIndex(employees, newId) == Some(|old(employees)|)
      ensures r.Success? && writeOk ==> persisted == Records(employees)
                                        && notifications == old(notifications) + [Notification(listeners, employees)]
      ensures r.Success? && !writeOk ==> persisted == old(persisted) && notifications == old(notifications)
      ensures listeners == old(listeners)
      ensures UniqueRecords(old(employees)) ==> UniqueRecords(employees)
    {
      var errors := ValidateEmployee(d, None, today);
      if errors.Some? {
        return Failure(Rejected(errors.value));
      }
      var employee := Build(newId, d);
      if UniqueRecords(employees) {
        AcceptedAddKeepsUnique(employees, d, today, newId);
      }
      FindIndexAppended(employees, employee);
      employees := employees + [employee];
      SaveToStorage(writeOk);
      r := Success(employee);
    }

    /**
     * `update`: an unknown id throws before any validation; a validation
     * failure throws the error object; otherwise only the record at the
     * found index is replaced, keeping its id, and the records are saved.
     * Validation uses the corrected same-person rule, as in `Add`.
     */
    method Update(id: string, d: EmployeeData, today: Date, writeOk: bool) returns (r: Result<Employee, StoreError>)
      modifies this
      ensures var idx := FindIndex(old(employees), id);
        && (r == Failure(NotFound) <==> idx.None?)
        && (idx.Some? ==> (r.Failure? <==> Validation(old(employees), d, Some(id), today).Some?))
        && (idx.Some? && Trim(d.firstName) == d.firstName && Trim(d.lastName) == d.lastName ==>
              (r.Failure? <==> ValidationAsWritten(old(employees), d, Some(id), today).Some?))
        && (idx.Some? && r.Failure? ==> r.error == Rejected(Validation(old(employees), d, Some(id), today).value))
        && (r.Success? ==> idx.Some? && d.dateOfEmployment.Some? && d.dateOfBirth.Some?
                           && r.value == Build(id, d)
                           && employees == old(employees)[idx.value := r.value])
      ensures r.Failure? ==> employees == old(employees) && persisted == old(persisted)
                             && notifications == old(notifications)
      ensures r.Success? && writeOk ==> persisted == Records(employees)
                                        && notifications == old(notifications) + [Notification(listeners, employees)]
      ensures r.Success? && !writeOk ==> persisted == old(persisted) && notifications == old(notifications)
      ensures listeners == old(listeners)
      ensures |employees| == |old(employees)|
      ensures UniqueRecords(old(employees)) ==> UniqueRecords(employees)
    {
      var idx := FindIndex(employees, id);
      if idx.None? {
        return Failure(NotFound);
      }
      var errors := ValidateEmployee(d, Some(id), today);
      if errors.Some? {
        return Failure(Rejected(errors.value));
      }
      var updated := Build(employees[idx.value].id, d);
      if UniqueRecords(employees) {
        AcceptedUpdateKeepsUnique(employees, idx.value, d, today);
      }
      employees := employees[idx.value := updated];
      SaveToStorage(writeOk);
      r := Success(updated);
    }

    /**
     * `delete`: an unknown id throws; otherwise the record at the found index
     * is removed, the others keep their order, and the records are saved.
     */
    method Delete(id: string, writeOk: bool) returns (r: Result<Employee, StoreError>)
      modifies this
      ensures var idx := FindIndex(old(employees), id);
        && (r.Failure? <==> idx.None?)
        && (r.Failure? ==> r.error == NotFound)
        && (r.Success? ==> r.value == old(employees)[idx.value]
                           && employees == old(employees)[..idx.value] + old(employees)[idx.value + 1..])
      ensures r.Failure? ==> employees == old(employees) && persisted == old(persisted)
                             && notifications == old(notifications)
      ensures r.Success? && writeOk ==> persisted == Records(employees)
                                        && notifications == old(notifications) + [Notification(listeners, employees)]
      ensures r.Success? && !writeOk ==> persisted == old(persisted) && notifications == old(notifications)
      ensures listeners == old(listeners)
      ensures UniqueRecords(old(employees)) ==> UniqueRecords(employees)
    {
      var idx := FindIndex(employees, id);
      if idx.None? {
        return Failure(NotFound);
      }
      var deleted := employees[idx.value];
      if UniqueRecords(employees) {
        RemoveKeepsUnique(employees, idx.value);
      }
      employees := employees[..idx.value] + employees[idx.value + 1..];
      SaveToStorage(writeOk);
      r := Success(deleted);
    }

    /** `clear`: no records, saved. */
    method Clear(writeOk: bool)
      modifies this
      ensures employees == [] && listeners == old(listeners)
      ensures writeOk ==> persisted == Records([]) && notifications == old(notifications) + [Notification(listeners, [])]
      ensures !writeOk ==> persisted == old(persisted) && notifications == old(notifications)
    {
      employees := [];
      SaveToStorage(writeOk);
    }

    /** `search`, over the current records. */
    method Search(query: string) returns (r: seq<Employee>)
      ensures r == Queries.Search(employees, query)
      ensures forall e :: e in r ==> e in employees
    {
      r := Queries.Search(employees, query);
    }

    /** `getPaginated`, over the current records. */
    method GetPaginated(page: int, pageSize: nat, query: string) returns (p: Queries.PageResult)
      requires pageSize >= 1
      ensures p == Queries.Paginate(employees, page, pageSize, query)
    {
      p := Queries.Paginate(employees, page, pageSize, query);
    }

    /** `sort`: a sorted copy; the records themselves keep their order. */
    method Sort(field: Queries.SortField, dir: Queries.Direction) returns (r: seq<Employee>)
      ensures r == Queries.SortBy(employees, field, dir)
      ensures multiset(r) == multiset(employees)
      ensures Queries.SortedBy(r, field, dir)
    {
      r := Queries.SortBy(employees, field, dir);
      Queries.SortBySorted(employees, field, dir);
    }
  }
}
