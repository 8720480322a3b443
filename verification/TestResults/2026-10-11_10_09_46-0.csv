TestResult.DisplayName,TestResult.Outcome,TestResult.Duration,TestResult.ResourceCount,RandomSeed
Dynamo.RowValuesAt (correctness),Passed,00:00:00.2954684,806771,3
Dynamo.RowValuesAt (well-formedness),Passed,00:00:00.1048926,119967,3
